/** Who may open a preview, in every interleaving and through the handler: which acts
    answer, which fetches match, and when an entry is spent, in terms of the secrets
    presented and of what was handed out before. */
module PreviewAccess {
  import opened Common
  import opened PreviewSessions

  // ----- the entry during a run -----

  /** The entry is still in the store when act `k` comes. */
  predicate Present(m: Machine, acts: seq<Act>, k: nat)
    requires k <= |acts|
  {
    m.live && forall j :: 0 <= j < k ==> !acts[j].Remove?
  }

  lemma RunNext(m: Machine, acts: seq<Act>, k: nat)
    requires k < |acts|
    ensures Run(m, acts[..k+1]) == Step(Run(m, acts[..k]), acts[k]).0
  {
    RunBetween(m, acts, k, k + 1);
    assert acts[k+1..k+1] == [];
  }

  /** Token and expiry never change. */
  lemma {:induction false} Steady(m: Machine, acts: seq<Act>, k: nat)
    requires k <= |acts|
    ensures Run(m, acts[..k]).live <==> Present(m, acts, k)
    ensures Run(m, acts[..k]).session.token == m.session.token
    ensures Run(m, acts[..k]).session.expiresAt == m.session.expiresAt
  {
    if k > 0 {
      Steady(m, acts, k - 1);
      RunNext(m, acts, k - 1);
    }
  }

  // ----- exchanges -----

  /** An act answers exactly when it is an exchange that presents the entry's own token
      while the entry is there and unexpired, and either there is no cookie yet and the
      random source works, or there is one and the session is not yet in use. */
  lemma AnswersExactly(m: Machine, acts: seq<Act>, k: nat)
    requires k < |acts|
    ensures var s, a := Run(m, acts[..k]).session, acts[k];
      && (Answer(m, acts, k).Some? <==>
            && a.DoExchange? && a.token == m.session.token
            && Present(m, acts, k) && a.now <= m.session.expiresAt
            && (if s.cookie == "" then a.random.Some? else !s.activated))
      && (Answer(m, acts, k).Some? ==> Answer(m, acts, k) == if s.cookie == "" then a.random else Some(s.cookie))
  {
    Steady(m, acts, k);
  }

  /** Some exchange before act `k` was answered with this cookie. */
  ghost predicate HandedOut(m: Machine, acts: seq<Act>, k: nat, cookie: string)
    requires k <= |acts|
  {
    exists i: nat :: i < k && Answer(m, acts, i) == Some(cookie)
  }

  lemma CookieNext(m: Machine, acts: seq<Act>, k: nat)
    requires k < |acts| && Nonempty(acts[k])
    ensures var before, after := Run(m, acts[..k]).session.cookie, Run(m, acts[..k+1]).session.cookie;
      if Answer(m, acts, k).None? then after == before
      else after != "" && after == Answer(m, acts, k).value && (before != "" ==> after == before)
  {
    RunNext(m, acts, k);
  }

  /** An entry without a cookie gets the one that the first answered exchange hands out,
      and no other; until then it has none. */
  lemma {:induction false} CookieExactly(m: Machine, acts: seq<Act>, k: nat)
    requires m.session.cookie == "" && k <= |acts| && forall a <- acts :: Nonempty(a)
    ensures var cookie := Run(m, acts[..k]).session.cookie;
      && (cookie == "" <==> forall i: nat :: i < k ==> Answer(m, acts, i).None?)
      && (cookie != "" ==> HandedOut(m, acts, k, cookie))
      && (forall i: nat :: i < k && Answer(m, acts, i).Some? ==> Answer(m, acts, i) == Some(cookie))
  {
    if k == 0 {
      assert acts[..0] == [];
    } else {
      CookieExactly(m, acts, k - 1);
      assert acts[k-1] in acts;
      CookieNext(m, acts, k - 1);
      var before := Run(m, acts[..k-1]).session.cookie;
      if before != "" {
        var i: nat :| i < k - 1 && Answer(m, acts, i) == Some(before);
        assert i < k && HandedOut(m, acts, k, before);
      }
      if Answer(m, acts, k - 1).Some? {
        assert HandedOut(m, acts, k, Answer(m, acts, k - 1).value);
      }
    }
  }

  // ----- fetches -----

  /** Act `j` is a fetch of thread `t` that presents the cookie the entry holds at that
      moment, while the entry is there and unexpired. */
  predicate Shows(m: Machine, acts: seq<Act>, j: nat, t: nat)
    requires j < |acts|
  {
    && acts[j].Fetch? && acts[j].thread == t
    && Present(m, acts, j) && acts[j].now <= m.session.expiresAt
    && acts[j].cookie == Run(m, acts[..j]).session.cookie
  }

  /** Thread `t` has shown the cookie since its last activation. */
  ghost predicate Due(m: Machine, acts: seq<Act>, k: nat, t: nat)
    requires k <= |acts|
  {
    exists j: nat :: j < k && Shows(m, acts, j, t) && forall i :: j < i < k ==> acts[i] != Activate(t)
  }

  /** A fetch has matched exactly when it has shown the cookie and not yet come back. */
  lemma {:induction false} MatchedExactly(m: Machine, acts: seq<Act>, k: nat, t: nat)
    requires m.matched == {} && k <= |acts|
    ensures t in Run(m, acts[..k]).matched <==> Due(m, acts, k, t)
  {
    if k == 0 {
      assert acts[..0] == [];
    } else {
      MatchedExactly(m, acts, k - 1, t);
      RunNext(m, acts, k - 1);
      Steady(m, acts, k - 1);
      if Due(m, acts, k - 1, t) && acts[k-1] != Activate(t) {
        var j: nat :| j < k - 1 && Shows(m, acts, j, t) && forall i :: j < i < k - 1 ==> acts[i] != Activate(t);
        assert forall i :: j < i < k ==> acts[i] != Activate(t);
        assert Due(m, acts, k, t);
      }
      if Due(m, acts, k, t) {
        var j: nat :| j < k && Shows(m, acts, j, t) && forall i :: j < i < k ==> acts[i] != Activate(t);
        assert j < k - 1 ==> Due(m, acts, k - 1, t) && acts[k-1] != Activate(t);
      }
      assert Shows(m, acts, k - 1, t) ==> Due(m, acts, k, t);
    }
  }

  /** The session is in use exactly when some fetch that had shown the cookie has come
      back. */
  lemma {:induction false} ActivatedExactly(m: Machine, acts: seq<Act>, k: nat)
    requires m.matched == {} && !m.session.activated && k <= |acts|
    ensures Run(m, acts[..k]).session.activated <==>
      exists i: nat :: i < k && acts[i].Activate? && Due(m, acts, i, acts[i].thread)
  {
    if k == 0 {
      assert acts[..0] == [];
    } else {
      ActivatedExactly(m, acts, k - 1);
      RunNext(m, acts, k - 1);
      if acts[k-1].Activate? {
        MatchedExactly(m, acts, k - 1, acts[k-1].thread);
      }
    }
  }

  /** So for a new entry, in every interleaving: an exchange is answered exactly when it
      presents the entry's token, in time, and either nobody has been answered before, or
      nobody who was given the cookie has come back with it. */
  lemma SpentExactly(m: Machine, acts: seq<Act>, k: nat)
    requires m.session.cookie == "" && !m.session.activated && m.matched == {}
    requires k < |acts| && forall a <- acts :: Nonempty(a)
    ensures var a := acts[k];
      Answer(m, acts, k).Some? <==>
        && a.DoExchange? && a.token == m.session.token
        && Present(m, acts, k) && a.now <= m.session.expiresAt
        && (if forall i: nat :: i < k ==> Answer(m, acts, i).None? then a.random.Some?
            else forall i: nat :: i < k && acts[i].Activate? ==> !Due(m, acts, i, acts[i].thread))
  {
    AnswersExactly(m, acts, k);
    CookieExactly(m, acts, k);
    ActivatedExactly(m, acts, k);
  }

  /** Whoever puts the session to use has presented a cookie handed out before. */
  lemma ShownCookieWasHandedOut(m: Machine, acts: seq<Act>, k: nat, t: nat)
    requires m.session.cookie == "" && !m.session.activated && m.matched == {}
    requires k <= |acts| && (forall a <- acts :: Nonempty(a)) && Due(m, acts, k, t)
    ensures exists j: nat :: j < k && acts[j].Fetch? && acts[j].thread == t && acts[j].cookie != "" && HandedOut(m, acts, j, acts[j].cookie)
  {
    var j: nat :| j < k && Shows(m, acts, j, t) && forall i :: j < i < k ==> acts[i] != Activate(t);
    assert acts[j] in acts;
    CookieExactly(m, acts, j);
  }

  // ----- through the handler -----

  /** A request of the run carries this cookie and is not blank. */
  ghost predicate CameWith(evs: seq<Event>, t: nat, cookie: string) {
    && (exists c <- cookie :: c !in " \t\r\n")
    && exists ev <- evs :: ev.Arrive? && ev.thread == t && ev.request.cookie == Some(cookie)
  }

  /** A request of the run has this path segment behind the id. */
  ghost predicate CameFor(evs: seq<Event>, segment: string) {
    segment != "" && exists ev <- evs :: ev.Arrive? && ev.request.segment == segment
  }

  ghost predicate Backed(phases: map<nat, Phase>, evs: seq<Event>) {
    forall t <- phases :: phases[t].Arrived? || phases[t].Missed? ==>
      exists ev <- evs :: ev == Arrive(t, phases[t].request)
  }

  lemma CallsAreBacked(s: Server, ev: Event, seen: seq<Event>)
    requires Backed(s.phases, seen)
    ensures Backed(NextPhase(s, ev), seen + [ev])
    ensures forall a <- Calls(s, ev) ::
      && (a.Fetch? ==> CameWith(seen, a.thread, a.cookie))
      && (a.DoExchange? ==> CameFor(seen, a.token))
  {
    forall t <- NextPhase(s, ev) | NextPhase(s, ev)[t].Arrived? || NextPhase(s, ev)[t].Missed?
      ensures exists x <- seen + [ev] :: x == Arrive(t, NextPhase(s, ev)[t].request)
    {
      if t in s.phases && (s.phases[t].Arrived? || s.phases[t].Missed?) {
        assert NextPhase(s, ev)[t].request == s.phases[t].request;
        var x :| x in seen && x == Arrive(t, s.phases[t].request);
        assert x in seen + [ev];
      } else {
        assert ev == Arrive(t, NextPhase(s, ev)[t].request);
        assert ev in seen + [ev];
      }
    }
  }

  /** Every secret the store is ever shown was carried by a request. */
  lemma {:induction false} SecretsComeFromRequests(s: Server, seen: seq<Event>, evs: seq<Event>)
    requires Backed(s.phases, seen)
    ensures forall a <- AllCalls(s, evs) ::
      && (a.Fetch? ==> CameWith(seen + evs, a.thread, a.cookie))
      && (a.DoExchange? ==> CameFor(seen + evs, a.token))
    decreases |evs|
  {
    if evs != [] {
      CallsAreBacked(s, evs[0], seen);
      SecretsComeFromRequests(Serve(s, evs[0]), seen + [evs[0]], evs[1..]);
      assert seen + [evs[0]] + evs[1..] == seen + evs;
      forall a <- Calls(s, evs[0])
        ensures a.Fetch? ==> CameWith(seen + evs, a.thread, a.cookie)
        ensures a.DoExchange? ==> CameFor(seen + evs, a.token)
      {
        assert forall x <- seen :: x in seen + evs;
      }
    }
  }

  /** Over every run of requests, from the start: whoever is answered arrived with the
      entry's own token, while the entry was there and unexpired; whoever puts the session
      to use arrived with a cookie that an earlier answer handed out. */
  lemma OnlyHoldersGetIn(s: Server, evs: seq<Event>, k: nat)
    requires s.phases == map[] && s.machine.session.cookie == "" && !s.machine.session.activated && s.machine.matched == {}
    requires (forall ev <- evs :: Drawn(ev)) && k < |AllCalls(s, evs)|
    ensures var m, acts := s.machine, AllCalls(s, evs);
      && (Answer(m, acts, k).Some? ==>
            && acts[k].DoExchange? && acts[k].token == m.session.token && CameFor(evs, m.session.token)
            && Present(m, acts, k) && acts[k].now <= m.session.expiresAt)
      && (acts[k].Activate? && acts[k].thread in Run(m, acts[..k]).matched ==>
            exists j: nat :: j < k && acts[j].Fetch? && acts[j].thread == acts[k].thread
              && CameWith(evs, acts[j].thread, acts[j].cookie) && HandedOut(m, acts, j, acts[j].cookie))
  {
    var m, acts := s.machine, AllCalls(s, evs);
    HandlerPresentsSecrets(s, evs);
    SecretsComeFromRequests(s, [], evs);
    assert [] + evs == evs;
    AnswersExactly(m, acts, k);
    assert acts[k] in acts;
    if acts[k].Activate? && acts[k].thread in Run(m, acts[..k]).matched {
      MatchedExactly(m, acts, k, acts[k].thread);
      ShownCookieWasHandedOut(m, acts, k, acts[k].thread);
      var j: nat :| j < k && acts[j].Fetch? && acts[j].thread == acts[k].thread && acts[j].cookie != "" && HandedOut(m, acts, j, acts[j].cookie);
      assert acts[j] in acts;
    }
  }

  /** And whoever arrives with the token while the entry is there, unexpired and unspent is
      answered, given a cookie or working randomness. */
  lemma HoldersAreAnswered(s: Server, t: nat, now: int, random: Option<string>)
    requires t in s.phases && s.phases[t].Missed? && s.phases[t].request.segment != ""
    ensures var e, r := s.machine.session, s.phases[t].request;
      && Calls(s, Advance(t, now, random)) == [DoExchange(r.segment, now, random)]
      && (Step(s.machine, DoExchange(r.segment, now, random)).1.Some? <==>
            s.machine.live && r.segment == e.token && now <= e.expiresAt && (if e.cookie == "" then random.Some? else !e.activated))
  {
  }

  /** A request that was let through puts the session to use, whatever has happened to the
      entry in the meantime. */
  lemma LetThroughActivates(s: Server, t: nat, now: int, random: Option<string>)
    requires t in s.phases && s.phases[t].Matched? && t in s.machine.matched
    ensures var s' := Serve(s, Advance(t, now, random));
      && s'.machine.session == s.machine.session.(activated := true)
      && s'.machine.matched == s.machine.matched - {t} && s'.machine.live == s.machine.live
      && s'.phases == s.phases[t := Done]
  {
    var calls := Calls(s, Advance(t, now, random));
    assert calls[1..] == [] && Run(s.machine, calls) == Step(s.machine, calls[0]).0;
  }

  /** A request is let through at once exactly when it carries a cookie that is not blank
      and the one the entry holds, while the entry is there and unexpired. */
  lemma CookiesAreCompared(s: Server, t: nat, now: int, random: Option<string>)
    requires t in s.phases && s.phases[t].Arrived?
    ensures var e, r := s.machine.session, s.phases[t].request;
      var s' := Serve(s, Advance(t, now, random));
      var shown := r.cookie.Some? && (exists c <- r.cookie.value :: c !in " \t\r\n")
                   && s.machine.live && now <= e.expiresAt && r.cookie.value == e.cookie;
      && s'.phases[t] == (if shown then Matched else Missed(r))
      && s'.machine.matched == (if shown then s.machine.matched + {t} else s.machine.matched)
      && s'.machine.session == e
  {
    var r, calls := s.phases[t].request, Calls(s, Advance(t, now, random));
    assert r.cookie.Some? ==> (Blank(r.cookie.value) <==> forall c <- r.cookie.value :: c in " \t\r\n");
    if calls != [] {
      assert calls[1..] == [] && Run(s.machine, calls) == Step(s.machine, calls[0]).0;
    }
  }
}
