/** The managed Hugo symlink and its activation record: stage, activate, bootstrap and
    roll back, each of which may fail or die between its two durable steps. */
module HugoLink {
  import opened Common

  /** A normalised version; the empty string is what an invalid one normalises to. */
  type Version = string

  /** A SHA-256 in hexadecimal. */
  type Sha = s: string | |s| == 64 witness seq(64, _ => '0')

  /** A path below the managed directory. */
  datatype Target = Versioned(v: Version) | Unversioned(rel: string)

  /** The executable at a target: its hash and what it reports when run. */
  datatype Binary = Binary(sha: Sha, version: Version, extended: bool)

  /** The verification record written when a version is staged; `extended` is what the
      configuration required then. */
  datatype Stage = Stage(sha: Sha, extended: bool)

  /** The configuration of managed upgrades and the order of versions. */
  datatype Policy = Policy(enabled: bool, supported: bool, minimum: Version, maximum: Version, allowDowngrade: bool,
                           requireExtended: bool, compare: (Version, Version) -> int)

  /** The Hugo found on the host. */
  datatype Installed = Installed(version: Version, extended: bool)

  /** What the release server delivers: whether the release lists both files, the checksum
      the manifest gives, the checksum of the archive, and the binary in it. */
  datatype Release = Release(listed: bool, manifest: Option<string>, archive: Option<string>, binary: Option<Binary>)

  datatype Staging = Staging(policy: Policy, installed: Option<Installed>, release: Release, dryRun: bool, writeFails: bool)

  datatype Link = Absent | Unmanaged | To(target: Target)

  datatype Record = Record(active: Version, previous: Option<Target>, previousVersion: Version,
                           previousSha: string, previousExtended: bool)

  datatype State = State(staged: map<Version, Stage>, files: map<Target, Binary>, link: Link, record: Option<Record>)

  /** Which durable steps fail; `dies` stops the process right after the link swap. */
  datatype Env = Env(dryRun: bool, swapFails: bool, recordFails: bool, restoreFails: bool, dies: bool)

  datatype Result = Done | DryRun | Error | Died

  // ----- queries -----

  /** currentManagedTarget: None is an error. */
  function CurrentTarget(s: State): Option<Option<Target>> {
    match s.link
    case Absent => Some(None)
    case Unmanaged => None
    case To(t) => if t in s.files then Some(Some(t)) else None
  }

  /** The staged binary is there, unchanged, and reports the version it claims. */
  predicate StagedSound(s: State, v: Version) {
    && v != "" && v in s.staged && Versioned(v) in s.files
    && s.files[Versioned(v)].sha == s.staged[v].sha
    && Runs(s.files[Versioned(v)], v, s.staged[v].extended)
  }

  /** verifyStagedHugo. */
  predicate Runs(b: Binary, v: Version, requireExtended: bool) {
    b.version == v && (requireExtended ==> b.extended)
  }

  /** What activation reads about the version in place; None is an error. */
  function OldFacts(s: State): Option<Record> {
    match CurrentTarget(s)
    case None => None
    case Some(None) => Some(Record("", None, "", "", false))
    case Some(Some(t)) =>
      if t.Unversioned? || t.v == "" || s.files[t].version != t.v then None
      else Some(Record("", Some(t), t.v, s.files[t].sha, s.files[t].extended))
  }

  /** loadActivationRecord: a record without a previous target is refused here. */
  predicate RecordUsable(s: State) {
    && s.record.Some?
    && s.record.value.active != "" && s.record.value.previous.Some?
    && s.record.value.previousVersion != "" && |s.record.value.previousSha| == 64
  }

  predicate PreviousSound(s: State) {
    && RecordUsable(s)
    && var r := s.record.value;
    && r.previous.value in s.files
    && s.files[r.previous.value].sha == r.previousSha
    && Runs(s.files[r.previous.value], r.previousVersion, r.previousExtended)
  }

  // ----- operations on values -----

  function RestoredLink(old_: Option<Target>): Link {
    if old_.None? then Absent else To(old_.value)
  }

  function Activate(s: State, v: Version, env: Env): (State, Result) {
    var facts := OldFacts(s);
    if !StagedSound(s, v) || facts.None? then (s, Error)
    else if env.dryRun then (s, DryRun)
    else if env.swapFails then (s, Error)
    else
      var swapped := s.(link := To(Versioned(v)));
      if env.dies then (swapped, Died)
      else if !env.recordFails then (swapped.(record := Some(facts.value.(active := v))), Done)
      else if env.restoreFails then (swapped, Error)
      else (swapped.(link := RestoredLink(facts.value.previous)), Error)
  }

  function Rollback(s: State, env: Env): (State, Result) {
    if !RecordUsable(s) || CurrentTarget(s) != Some(Some(Versioned(s.record.value.active))) || !PreviousSound(s) then (s, Error)
    else if env.dryRun then (s, DryRun)
    else if env.swapFails then (s, Error)
    else
      var swapped := s.(link := To(s.record.value.previous.value));
      if env.dies then (swapped, Died)
      else if !env.recordFails then (swapped.(record := None), Done)
      else if env.restoreFails then (swapped, Error)
      else (swapped.(link := s.link), Error)
  }

  /** The configuration lets the version be staged. */
  predicate Permitted(g: Staging, v: Version) {
    var p := g.policy;
    && p.enabled && v != ""
    && (p.minimum != "" ==> p.compare(v, p.minimum) >= 0)
    && (p.maximum != "" ==> p.compare(v, p.maximum) <= 0)
    && p.supported
    && (g.installed.Some? && !p.allowDowngrade ==> p.compare(v, g.installed.value.version) >= 0)
    && g.release.listed
  }

  /** The archive is the one the manifest names, and its binary is what it should be. */
  predicate Genuine(g: Staging, v: Version) {
    && g.release.manifest.Some? && g.release.archive == g.release.manifest
    && g.release.binary.Some? && Runs(g.release.binary.value, v, g.policy.requireExtended)
  }

  /** A verified download: never over a version already staged. */
  function StageVersion(s: State, v: Version, g: Staging): (State, Result) {
    if !Permitted(g, v) then (s, Error)
    else if g.dryRun then (s, DryRun)
    else if !Genuine(g, v) || v in s.staged || Versioned(v) in s.files || g.writeFails then (s, Error)
    else
      var b := g.release.binary.value;
      (s.(staged := s.staged[v := Stage(b.sha, g.policy.requireExtended)], files := s.files[Versioned(v) := b]), Done)
  }

  /** Stage and activate the installed version, on a host that has no managed link. */
  function Bootstrap(s: State, g: Staging, env: Env): (State, Result) {
    if !g.policy.enabled || CurrentTarget(s) != Some(None) then (s, Error)
    else if g.installed.None? || g.installed.value.version == "" then (s, Error)
    else if g.installed.value.extended != g.policy.requireExtended then (s, Error)
    else if g.dryRun then (s, DryRun)
    else
      var v := g.installed.value.version;
      var (s1, r) := StageVersion(s, v, g);
      if r != Done then (s, Error) else Activate(s1, v, env.(dryRun := false))
  }

  class HugoUpgradeManager {
    var staged: map<Version, Stage>
    var files: map<Target, Binary>
    var link: Link
    var record: Option<Record>

    ghost function Model(): State
      reads this
    {
      State(staged, files, link, record)
    }

    constructor (s: State)
      ensures Model() == s
    {
      staged, files, link, record := s.staged, s.files, s.link, s.record;
    }

    method Now() returns (s: State)
      ensures s == Model()
    {
      s := State(staged, files, link, record);
    }

    /** Symlink beside the link, then rename over it. */
    method SwapManagedLink(target: Target, fails: bool) returns (ok: bool)
      modifies this`link
      ensures ok <==> target in files && !fails
      ensures link == if ok then To(target) else old(link)
    {
      if target !in files || fails {
        return false;
      }
      link := To(target);
      return true;
    }

    method RestoreManagedLink(target: Option<Target>, fails: bool)
      modifies this`link
      ensures link == if fails || (target.Some? && target.value !in files) then old(link) else RestoredLink(target)
    {
      if target.None? {
        if !fails {
          link := Absent;
        }
        return;
      }
      var _ := SwapManagedLink(target.value, fails);
    }

    method ActivateLocked(v: Version, env: Env) returns (r: Result)
      modifies this`link, this`record
      ensures (Model(), r) == Activate(old(Model()), v, env)
    {
      var s := Now();
      if v == "" || v !in staged || Versioned(v) !in files {
        return Error;
      }
      if files[Versioned(v)].sha != staged[v].sha || !Runs(files[Versioned(v)], v, staged[v].extended) {
        return Error;
      }
      var current := CurrentTarget(s);
      if current.None? {
        return Error;
      }
      var oldVersion, oldSha, oldExtended := "", "", false;
      if current.value.Some? {
        var t := current.value.value;
        if t.Unversioned? || t.v == "" {
          return Error;
        }
        oldVersion, oldSha := t.v, files[t].sha;
        if files[t].version != oldVersion {
          return Error;
        }
        oldExtended := files[t].extended;
      }
      if env.dryRun {
        return DryRun;
      }
      var ok := SwapManagedLink(Versioned(v), env.swapFails);
      if !ok {
        return Error;
      }
      if env.dies {
        return Died;
      }
      if env.recordFails {
        RestoreManagedLink(current.value, env.restoreFails);
        return Error;
      }
      record := Some(Record(v, current.value, oldVersion, oldSha, oldExtended));
      return Done;
    }

    method RollbackHugo(env: Env) returns (r: Result)
      modifies this`link, this`record
      ensures (Model(), r) == Rollback(old(Model()), env)
    {
      var s := Now();
      if !RecordUsable(s) {
        return Error;
      }
      var activation := record.value;
      var current := CurrentTarget(s);
      if current.None? || current.value != Some(Versioned(activation.active)) {
        return Error;
      }
      var previous := activation.previous.value;
      if previous !in files || files[previous].sha != activation.previousSha
         || !Runs(files[previous], activation.previousVersion, activation.previousExtended) {
        return Error;
      }
      if env.dryRun {
        return DryRun;
      }
      var ok := SwapManagedLink(previous, env.swapFails);
      if !ok {
        return Error;
      }
      if env.dies {
        return Died;
      }
      if env.recordFails {
        var _ := SwapManagedLink(Versioned(activation.active), env.restoreFails);
        return Error;
      }
      record := None;
      return Done;
    }

    method StageLocked(v: Version, g: Staging) returns (r: Result)
      modifies this`staged, this`files
      ensures (Model(), r) == StageVersion(old(Model()), v, g)
    {
      var p, release := g.policy, g.release;
      if !p.enabled || v == "" {
        return Error;
      }
      if p.minimum != "" && p.compare(v, p.minimum) < 0 {
        return Error;
      }
      if p.maximum != "" && p.compare(v, p.maximum) > 0 {
        return Error;
      }
      if !p.supported {
        return Error;
      }
      if g.installed.Some? && !p.allowDowngrade && p.compare(v, g.installed.value.version) < 0 {
        return Error;
      }
      if !release.listed {
        return Error;
      }
      if g.dryRun {
        return DryRun;
      }
      if release.manifest.None? || release.archive != release.manifest {
        return Error;
      }
      if v in staged || Versioned(v) in files {
        return Error;
      }
      if release.binary.None? || !Runs(release.binary.value, v, p.requireExtended) {
        return Error;
      }
      if g.writeFails {
        return Error;
      }
      staged := staged[v := Stage(release.binary.value.sha, p.requireExtended)];
      files := files[Versioned(v) := release.binary.value];
      return Done;
    }

    method BootstrapHugo(g: Staging, env: Env) returns (r: Result)
      modifies this
      ensures (Model(), r) == Bootstrap(old(Model()), g, env)
    {
      if !g.policy.enabled {
        return Error;
      }
      var s := Now();
      var existing := CurrentTarget(s);
      if existing.None? || existing.value.Some? {
        return Error;
      }
      if g.installed.None? || g.installed.value.version == "" {
        return Error;
      }
      if g.installed.value.extended != g.policy.requireExtended {
        return Error;
      }
      if g.dryRun {
        return DryRun;
      }
      var v := g.installed.value.version;
      r := StageLocked(v, g);
      if r != Done {
        return Error;
      }
      r := ActivateLocked(v, env.(dryRun := false));
    }
  }

  /** What is staged is what was asked for, within the policy, and can be activated. */
  lemma StagedIsGenuine(s: State, v: Version, g: Staging)
    requires StageVersion(s, v, g).1 == Done
    ensures Permitted(g, v) && Genuine(g, v)
    ensures var s' := StageVersion(s, v, g).0;
      && StagedSound(s', v) && v !in s.staged && Versioned(v) !in s.files
      && s'.link == s.link && s'.record == s.record
      && s'.staged - {v} == s.staged && s'.files - {Versioned(v)} == s.files
  {
  }

  // ----- one operation -----

  /** An activation that reports an error leaves link and record as they were, except
      when the record could not be written and the restore failed as well. */
  lemma FailedActivateRestores(s: State, v: Version, env: Env)
    requires Activate(s, v, env).1 == Error
    ensures Activate(s, v, env).0.record == s.record
    ensures Activate(s, v, env).0 == s <==>
      !(StagedSound(s, v) && OldFacts(s).Some? && !env.swapFails && env.restoreFails && !env.dryRun) || s.link == To(Versioned(v))
  {
    var s' := Activate(s, v, env).0;
    if StagedSound(s, v) && OldFacts(s).Some? && !env.dryRun && !env.swapFails {
      assert env.recordFails;
      assert s' == s.(link := s'.link);
    }
  }

  /** What an activation replaced can be brought back right away. */
  lemma UpgradeCanBeRolledBack(s: State, v: Version, env: Env, back: Env)
    requires s.link.To? && Activate(s, v, env).1 == Done
    requires !back.dryRun && !back.swapFails && !back.recordFails && !back.dies
    ensures var (s2, r) := Rollback(Activate(s, v, env).0, back);
      r == Done && s2 == s.(record := None)
  {
    var s1 := Activate(s, v, env).0;
    assert s1.record.value.previous == Some(s.link.target);
    assert s1.(link := s.link, record := None) == s.(record := None);
  }

  lemma FirstActivationHasNoWayBack(s: State, v: Version, env: Env, back: Env)
    requires s.link == Absent && Activate(s, v, env).1 == Done
    ensures Rollback(Activate(s, v, env).0, back).1 == Error
  {
    assert OldFacts(s).value.previous == None;
  }

  // ----- every history -----

  datatype Event =
    | DoStage(v: Version, staging: Staging)
    | DoActivate(v: Version, env: Env)
    | DoRollback(env: Env)
    | DoBootstrap(staging: Staging, env: Env)
    | Tamper(target: Target, file: Option<Binary>)

  /** The link just before the activation that wrote the current record, and the hash
      of the binary it led to. */
  datatype Before = Before(link: Link, sha: string)

  datatype Logged = Logged(state: State, before: Option<Before>)

  function LiveSha(s: State): string {
    if s.link.To? && s.link.target in s.files then s.files[s.link.target].sha else ""
  }

  function Step(l: Logged, e: Event): (Logged, Result) {
    match e
    case DoStage(v, g) => var (s, r) := StageVersion(l.state, v, g); (l.(state := s), r)
    case DoActivate(v, env) =>
      var (s, r) := Activate(l.state, v, env);
      (Logged(s, if r == Done then Some(Before(l.state.link, LiveSha(l.state))) else l.before), r)
    case DoBootstrap(g, env) =>
      var (s, r) := Bootstrap(l.state, g, env);
      (Logged(s, if r == Done then Some(Before(l.state.link, LiveSha(l.state))) else l.before), r)
    case DoRollback(env) =>
      var (s, r) := Rollback(l.state, env);
      (Logged(s, if r == Done then None else l.before), r)
    case Tamper(t, file) =>
      (l.(state := l.state.(files := if file.Some? then l.state.files[t := file.value] else l.state.files - {t})), Done)
  }

  function Run(l: Logged, events: seq<Event>): Logged
    decreases |events|
  {
    if events == [] then l else Run(Step(l, events[0]).0, events[1..])
  }

  /** The record tells the truth about the link it replaced. */
  ghost predicate Truthful(l: Logged) {
    l.state.record.Some? ==>
      && l.before.Some?
      && RestoredLink(l.state.record.value.previous) == l.before.value.link
      && l.state.record.value.previousSha == l.before.value.sha
  }

  lemma StepKeepsTruth(l: Logged, e: Event)
    requires Truthful(l)
    ensures Truthful(Step(l, e).0)
  {
    match e
    case DoActivate(v, env) => ActivateWritesTruth(l.state, v, env);
    case DoBootstrap(g, env) =>
      if g.installed.Some? {
        var v := g.installed.value.version;
        ActivateWritesTruth(StageVersion(l.state, v, g).0, v, env.(dryRun := false));
      }
    case _ =>
  }

  lemma ActivateWritesTruth(s: State, v: Version, env: Env)
    ensures var (s', r) := Activate(s, v, env);
      && (r == Done ==> s'.record.Some? && RestoredLink(s'.record.value.previous) == s.link
                        && s'.record.value.previousSha == LiveSha(s) && s'.link == To(Versioned(s'.record.value.active)))
      && (r != Done ==> s'.record == s.record)
  {
  }

  lemma {:induction false} RunKeepsTruth(l: Logged, events: seq<Event>)
    requires Truthful(l)
    ensures Truthful(Run(l, events))
    decreases |events|
  {
    if events != [] {
      StepKeepsTruth(l, events[0]);
      RunKeepsTruth(Step(l, events[0]).0, events[1..]);
    }
  }

  /** After any history from a host without a record, with crashes, failing writes and
      tampered binaries anywhere: a rollback that succeeds moves the link from exactly
      the recorded active version to exactly the target that was live just before the
      activation that wrote the record, and that target still holds the same binary. */
  lemma RollbackIsExact(s0: State, events: seq<Event>, env: Env)
    requires s0.record == None
    ensures var l := Run(Logged(s0, None), events);
      var (s', r) := Rollback(l.state, env);
      && (r == Done ==>
            && l.state.link == To(Versioned(l.state.record.value.active))
            && l.before.Some? && l.before.value.link.To?
            && s' == l.state.(link := l.before.value.link, record := None)
            && LiveSha(s') == l.before.value.sha)
      && (r == Error && !(PreviousSound(l.state) && !env.dryRun && env.restoreFails) ==> s' == l.state)
  {
    RunKeepsTruth(Logged(s0, None), events);
    var l := Run(Logged(s0, None), events);
    if Rollback(l.state, env).1 == Error && PreviousSound(l.state) {
      assert l.state.(link := l.state.link) == l.state;
    }
  }

  /** A crash between the two steps of an activation is caught by the next rollback:
      the link no longer matches the record, unless it was already there. */
  lemma CrashedActivationBlocksRollback(s: State, v: Version, env: Env, back: Env)
    requires Activate(s, v, env).1 == Died
    ensures var s' := Activate(s, v, env).0;
      (Rollback(s', back).1 != Error ==> s.record.Some? && s.record.value.active == v)
      && (s.record.Some? && s.record.value.active != v ==> Rollback(s', back) == (s', Error))
  {
  }

  // ----- the first upgrade after a bootstrap -----

  /** The bootstrapped version is live, whole, and recorded as having no predecessor. */
  predicate Bootstrapped(s: State, v: Version, b: Binary) {
    && s.link == To(Versioned(v)) && Lookup(s.files, Versioned(v)) == Some(b)
    && s.record.Some? && s.record.value.active == v && s.record.value.previous == None
  }

  /** No activation finishes, dies after the swap or fails to restore the link, and the
      bootstrapped binary is left alone. Everything else may happen. */
  predicate BeforeUpgrade(l: Logged, e: Event, v: Version) {
    match e
    case DoActivate(_, env) => Step(l, e).1 != Done && !env.dies && !env.restoreFails
    case Tamper(t, _) => t != Versioned(v)
    case _ => true
  }

  predicate AllBeforeUpgrade(l: Logged, events: seq<Event>, v: Version)
    decreases |events|
  {
    events == [] || (BeforeUpgrade(l, events[0], v) && AllBeforeUpgrade(Step(l, events[0]).0, events[1..], v))
  }

  lemma BootstrapLeaves(s: State, g: Staging, env: Env)
    requires Bootstrap(s, g, env).1 == Done
    ensures var v := g.installed.value.version;
      Bootstrapped(Bootstrap(s, g, env).0, v, g.release.binary.value)
  {
    var v := g.installed.value.version;
    StagedIsGenuine(s, v, g);
    assert CurrentTarget(StageVersion(s, v, g).0) == Some(None);
  }

  lemma StaysBootstrapped(l: Logged, e: Event, v: Version, b: Binary)
    requires Bootstrapped(l.state, v, b) && BeforeUpgrade(l, e, v)
    ensures Bootstrapped(Step(l, e).0.state, v, b)
  {
  }

  lemma {:induction false} StaysBootstrappedThroughout(l: Logged, events: seq<Event>, v: Version, b: Binary)
    requires Bootstrapped(l.state, v, b) && AllBeforeUpgrade(l, events, v)
    ensures Bootstrapped(Run(l, events).state, v, b)
    decreases |events|
  {
    if events != [] {
      StaysBootstrapped(l, events[0], v, b);
      StaysBootstrappedThroughout(Step(l, events[0]).0, events[1..], v, b);
    }
  }

  /** A bootstrapped host cannot roll back. But whatever happens between the bootstrap and
      the first upgrade that finishes, stagings, refused and failed activations, attempted
      rollbacks and bootstraps, tampering with other binaries, that upgrade can be rolled
      back to the bootstrapped version. */
  lemma BootstrapEnablesRollback(s: State, g: Staging, env: Env, events: seq<Event>, v: Version, env2: Env, back: Env)
    requires Bootstrap(s, g, env).1 == Done
    requires AllBeforeUpgrade(Logged(Bootstrap(s, g, env).0, None), events, g.installed.value.version)
    requires !back.dryRun && !back.swapFails && !back.recordFails && !back.dies
    ensures var installed := g.installed.value.version;
      var s1 := Run(Logged(Bootstrap(s, g, env).0, None), events).state;
      var (s2, upgraded) := Activate(s1, v, env2);
      && s1.link == To(Versioned(installed)) && Rollback(s1, back) == (s1, Error)
      && (upgraded == Done ==> Rollback(s2, back) == (s1.(record := None), Done))
  {
    var l := Logged(Bootstrap(s, g, env).0, None);
    BootstrapLeaves(s, g, env);
    StaysBootstrappedThroughout(l, events, g.installed.value.version, g.release.binary.value);
    var s1 := Run(l, events).state;
    if Activate(s1, v, env2).1 == Done {
      UpgradeCanBeRolledBack(s1, v, env2, back);
    }
  }
}
