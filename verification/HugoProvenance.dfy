/** Exactly when a Hugo version is staged, activated or rolled back to, and where the
    binary behind the managed link comes from. */
module HugoProvenance {
  import opened Common
  import opened HugoLink

  // ----- one operation -----

  /** A version is staged exactly when upgrades are enabled here, it lies between the
      configured bounds and does not go back below the installed one, the release lists
      its files, the archive has the checksum the manifest gives, the binary in it reports
      that version and, where required, the extended edition, and nothing is in place. */
  lemma StagesExactly(s: State, v: Version, g: Staging)
    ensures StageVersion(s, v, g).1 == Done <==>
      && g.policy.enabled && g.policy.supported && v != ""
      && (g.policy.minimum == "" || g.policy.compare(v, g.policy.minimum) >= 0)
      && (g.policy.maximum == "" || g.policy.compare(v, g.policy.maximum) <= 0)
      && (g.installed.None? || g.policy.allowDowngrade || g.policy.compare(v, g.installed.value.version) >= 0)
      && g.release.listed && g.release.manifest.Some? && g.release.archive.Some?
      && g.release.archive.value == g.release.manifest.value
      && g.release.binary.Some? && g.release.binary.value.version == v
      && (g.policy.requireExtended ==> g.release.binary.value.extended)
      && v !in s.staged && Versioned(v) !in s.files && !g.dryRun && !g.writeFails
    ensures var (s', r) := StageVersion(s, v, g);
      && s'.link == s.link && s'.record == s.record
      && (r != Done ==> s' == s)
      && (r == Done ==> var b := g.release.binary.value;
            s'.staged == s.staged[v := Stage(b.sha, g.policy.requireExtended)] && s'.files == s.files[Versioned(v) := b])
  {
  }

  /** A version is activated exactly when its staged binary is in place with the hash from
      staging and reports that version and, where required then, the extended edition; the
      link leads nowhere or to a version whose binary reports it; and no step fails. The
      record then names what was replaced. */
  lemma ActivatesExactly(s: State, v: Version, env: Env)
    ensures Activate(s, v, env).1 == Done <==>
      && v != "" && v in s.staged && Versioned(v) in s.files
      && s.files[Versioned(v)].sha == s.staged[v].sha && s.files[Versioned(v)].version == v
      && (s.staged[v].extended ==> s.files[Versioned(v)].extended)
      && (s.link == Absent || (
            && s.link.To? && s.link.target.Versioned? && s.link.target.v != "" && s.link.target in s.files
            && s.files[s.link.target].version == s.link.target.v))
      && !env.dryRun && !env.swapFails && !env.recordFails && !env.dies
    ensures var (s', r) := Activate(s, v, env);
      && s'.staged == s.staged && s'.files == s.files
      && (r == Done ==> s'.link == To(Versioned(v)) && s'.record == Some(
            if s.link == Absent then Record(v, None, "", "", false)
            else var b := s.files[s.link.target];
                 Record(v, Some(s.link.target), s.link.target.v, b.sha, b.extended)))
      && (r == DryRun ==> s' == s)
      && (r == Died ==> s' == s.(link := To(Versioned(v))))
  {
  }

  /** A rollback succeeds exactly when the link leads to the version the record calls
      active, the recorded predecessor is in place with its recorded hash, version and
      edition, and no step fails. */
  lemma RollsBackExactly(s: State, env: Env)
    ensures Rollback(s, env).1 == Done <==>
      && s.record.Some? && s.record.value.previous.Some?
      && var r := s.record.value;
      && r.active != "" && s.link == To(Versioned(r.active)) && Versioned(r.active) in s.files
      && r.previousVersion != "" && r.previous.value in s.files
      && s.files[r.previous.value].sha == r.previousSha && s.files[r.previous.value].version == r.previousVersion
      && (r.previousExtended ==> s.files[r.previous.value].extended)
      && !env.dryRun && !env.swapFails && !env.recordFails && !env.dies
    ensures Rollback(s, env).1 == Done ==>
      Rollback(s, env).0 == s.(link := To(s.record.value.previous.value), record := None)
  {
  }

  /** A bootstrap succeeds exactly on a host without a link, for the installed version when
      it is of the required edition, and when staging and activating it do. */
  lemma BootstrapsExactly(s: State, g: Staging, env: Env)
    ensures Bootstrap(s, g, env).1 == Done <==>
      && g.policy.enabled && s.link == Absent
      && g.installed.Some? && g.installed.value.version != ""
      && g.installed.value.extended == g.policy.requireExtended
      && StageVersion(s, g.installed.value.version, g).1 == Done
      && !env.swapFails && !env.recordFails && !env.dies
    ensures Bootstrap(s, g, env).1 == Done ==>
      var v := g.installed.value.version;
      Bootstrap(s, g, env).0 == StageVersion(s, v, g).0.(link := To(Versioned(v)), record := Some(Record(v, None, "", "", false)))
  {
    if g.installed.Some? {
      StagesExactly(s, g.installed.value.version, g);
      ActivatesExactly(StageVersion(s, g.installed.value.version, g).0, g.installed.value.version, env.(dryRun := false));
    }
  }

  // ----- every history -----

  /** The event staged the version from a release that the configuration permits, whose
      archive matches the manifest, and whose binary has this hash. */
  predicate Vouched(e: Event, v: Version, sha: Sha) {
    && ((e.DoStage? && e.v == v)
        || (e.DoBootstrap? && e.staging.installed.Some? && e.staging.installed.value.version == v))
    && var p, release := e.staging.policy, e.staging.release;
    && p.enabled && p.supported && v != ""
    && (p.minimum == "" || p.compare(v, p.minimum) >= 0)
    && (p.maximum == "" || p.compare(v, p.maximum) <= 0)
    && (e.staging.installed.None? || p.allowDowngrade || p.compare(v, e.staging.installed.value.version) >= 0)
    && release.listed && release.manifest.Some? && release.archive.Some? && release.archive.value == release.manifest.value
    && release.binary.Some? && release.binary.value.sha == sha && release.binary.value.version == v
    && (p.requireExtended ==> release.binary.value.extended)
  }

  lemma StepVouches(l: Logged, e: Event, v: Version)
    requires v in Step(l, e).0.state.staged
    ensures var staged := Step(l, e).0.state.staged;
      Lookup(l.state.staged, v) == Some(staged[v]) || Vouched(e, v, staged[v].sha)
  {
    match e
    case DoStage(u, g) => StagesExactly(l.state, u, g);
    case DoBootstrap(g, env) =>
      if g.installed.Some? {
        StagesExactly(l.state, g.installed.value.version, g);
      }
    case _ =>
  }

  /** Whatever happens, crashes and tampering included: each staged hash was vouched for by
      an event of the history, or was there at the start. */
  lemma {:induction false} StagedIsVouched(l: Logged, events: seq<Event>, v: Version)
    requires v in Run(l, events).state.staged
    ensures var staged := Run(l, events).state.staged;
      Lookup(l.state.staged, v) == Some(staged[v]) || exists e <- events :: Vouched(e, v, staged[v].sha)
    decreases |events|
  {
    if events != [] {
      var l1 := Step(l, events[0]).0;
      StagedIsVouched(l1, events[1..], v);
      assert forall e <- events[1..] :: e in events;
      if Lookup(l1.state.staged, v) == Some(Run(l, events).state.staged[v]) {
        StepVouches(l, events[0], v);
        assert events[0] in events;
      }
    }
  }

  /** After any history from a host with nothing staged: when an activation or a bootstrap
      finishes, the link leads to a binary with exactly the hash of a release that some
      event of the history, this one included, has checked against its manifest and the
      configuration; a binary exchanged on disk in the meantime is never activated. */
  lemma ActivatedIsVouched(s0: State, events: seq<Event>, e: Event)
    requires s0.staged == map[] && (e.DoActivate? || e.DoBootstrap?)
    requires Step(Run(Logged(s0, None), events), e).1 == Done
    ensures var s := Step(Run(Logged(s0, None), events), e).0.state;
      && s.link.To? && s.link.target.Versioned? && s.link.target in s.files
      && s.files[s.link.target].version == s.link.target.v
      && exists x <- events + [e] :: Vouched(x, s.link.target.v, s.files[s.link.target].sha)
  {
    var l := Run(Logged(s0, None), events);
    var s := Step(l, e).0.state;
    if e.DoActivate? {
      ActivatesExactly(l.state, e.v, e.env);
      StagedIsVouched(Logged(s0, None), events, e.v);
      assert forall x <- events :: x in events + [e];
    } else {
      var v := e.staging.installed.value.version;
      StagesExactly(l.state, v, e.staging);
      ActivatesExactly(StageVersion(l.state, v, e.staging).0, v, e.env.(dryRun := false));
      assert e in events + [e];
    }
  }
}
