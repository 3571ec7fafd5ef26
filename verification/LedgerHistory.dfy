/** What the ledger means: over every history of builds, run one at a time but failing
    or dying anywhere, its tables refine "diff against the last completed run". */
module LedgerHistory {
  import opened Common
  import opened BuildLedger

  /** A crash leaves no event: the next Begin simply follows an unfinished one. */
  datatype Event =
    | Begin(id: string, source: Source, at: int)
    | Complete(status: string, public: Public, at: int)
    | Fail(status: string, at: int)
    | Reconcile(source: Source, public: Public)

  type History = seq<Event>

  function Init(h: History): History
    requires h != []
  {
    h[..|h|-1]
  }

  function Last(h: History): Event
    requires h != []
  {
    h[|h|-1]
  }

  /** The build in progress and the source it captured. */
  function Open(h: History): Option<(string, Source)> {
    if h == [] then None
    else match Last(h)
      case Begin(id, source, _) => Some((id, source))
      case Reconcile(_, _) => Open(Init(h))
      case _ => None
  }

  function Ids(h: History): set<string> {
    if h == [] then {}
    else Ids(Init(h)) + if Last(h).Begin? then {Last(h).id} else {}
  }

  /** Id and completion time of the last completed run. */
  function LastDone(h: History): Option<(string, int)> {
    if h == [] then None
    else if Last(h).Complete? && Open(Init(h)).Some? then Some((Open(Init(h)).value.0, Last(h).at))
    else LastDone(Init(h))
  }

  /** Source revisions are digests, hence never empty. */
  predicate Hashed(source: Source) {
    forall i <- source :: source[i].revision != ""
  }

  /** Builds hold the content lock, ids are fresh, and completions move forward in
      time. */
  predicate Serial(h: History) {
    h == [] || (Serial(Init(h)) &&
      match Last(h)
      case Begin(id, source, _) => !Blank(id) && id !in Ids(Init(h)) && Hashed(source)
      case Complete(status, _, at) =>
        && Open(Init(h)).Some? && (status == "ok" || status == "partial_success")
        && (LastDone(Init(h)).Some? ==> LastDone(Init(h)).value.1 < at)
      case Fail(status, _) => Open(Init(h)).Some? && status != "ok" && status != "partial_success"
      case Reconcile(_, _) => true)
  }

  function Replay(h: History): Tables {
    if h == [] then Tables([], map[])
    else
      var t := Replay(Init(h));
      match Last(h)
      case Begin(id, source, at) => BeginTables(t, id, source, at)
      case Complete(status, public, at) =>
        if Open(Init(h)).None? then t else CompleteTables(t, Open(Init(h)).value.0, status, public, at)
      case Fail(status, at) =>
        if Open(Init(h)).None? then t else FailTables(t, Open(Init(h)).value.0, status, at)
      case Reconcile(source, public) =>
        if LatestCompleted(t.runs).None? then t
        else t.(runs := SetDrift(t, LatestCompleted(t.runs).value, source, public))
  }

  // ----- the meaning: what the completed runs alone say -----

  /** A page after a completed build of source `s` whose public output was `p`. */
  function AfterBuild(tracked: Pages, s: Source, p: Public, i: Identity): PageRow
    requires i in tracked || i in s
  {
    var out := PublicRevision(p, i);
    if i in s then
      PageRow(s[i].revision, s[i].revision, out,
              if s[i].Hidden() then Unpublished else if out == "" then MissingPublic else Published)
    else
      PageRow("", tracked[i].lastBuilt, out, if out == "" then Deleted else DeletionIncomplete)
  }

  function NextTracked(tracked: Pages, s: Source, p: Public): Pages {
    map i | i in tracked.Keys + s.Keys :: AfterBuild(tracked, s, p, i)
  }

  /** Every page the completed runs know of. Failed and unfinished runs leave no trace. */
  function Tracked(h: History): Pages {
    if h == [] then map[]
    else
      var before := Tracked(Init(h));
      if Last(h).Complete? && Open(Init(h)).Some? then
        NextTracked(before, Open(Init(h)).value.1, Last(h).public)
      else before
  }

  // ----- refinement -----

  /** Runs have distinct ids, drawn from `ids`. */
  ghost predicate Keyed(runs: seq<RunRow>, ids: set<string>) {
    && (forall i, j :: 0 <= i < j < |runs| ==> runs[i].id != runs[j].id)
    && (forall j :: 0 <= j < |runs| ==> runs[j].id in ids)
  }

  ghost predicate IsNewest(runs: seq<RunRow>, done: Option<(string, int)>) {
    var k := LatestCompleted(runs);
    && (k.None? <==> done.None?)
    && (k.Some? ==> runs[k.value].id == done.value.0 && runs[k.value].observedAt == done.value.1)
    && (k.Some? ==> forall j :: 0 <= j < |runs| && Completed(runs[j].status) && j != k.value ==>
          runs[j].observedAt < runs[k.value].observedAt)
  }

  ghost predicate IsOpen(t: Tables, tracked: Pages, open: Option<(string, Source)>) {
    open.Some? ==>
      && (exists k :: 0 <= k < |t.runs| && t.runs[k].id == open.value.0 && !Completed(t.runs[k].status))
      && open.value.0 in t.pages
      && t.pages[open.value.0] == BeginRows(tracked, open.value.1)
  }

  ghost predicate Says(t: Tables, ids: set<string>, tracked: Pages, done: Option<(string, int)>, open: Option<(string, Source)>) {
    Keyed(t.runs, ids) && IsNewest(t.runs, done) && IsOpen(t, tracked, open) && PriorPages(t) == tracked
  }

  ghost predicate Refines(h: History, t: Tables) {
    Says(t, Ids(h), Tracked(h), LastDone(h), Open(h))
  }

  /** The newest completed run is determined by the statuses and times. */
  lemma LatestIs(runs: seq<RunRow>, k: nat)
    requires k < |runs| && Completed(runs[k].status)
    requires forall j :: 0 <= j < |runs| && Completed(runs[j].status) && j != k ==> runs[j].observedAt < runs[k].observedAt
    ensures LatestCompleted(runs) == Some(k)
  {
  }

  predicate SameCompletion(r: RunRow, r': RunRow) {
    && r.id == r'.id
    && (Completed(r.status) <==> Completed(r'.status))
    && (Completed(r.status) ==> r.observedAt == r'.observedAt)
  }

  lemma LatestSame(runs: seq<RunRow>, runs': seq<RunRow>)
    requires |runs| <= |runs'|
    requires forall j :: 0 <= j < |runs| ==> SameCompletion(runs[j], runs'[j])
    requires forall j :: |runs| <= j < |runs'| ==> !Completed(runs'[j].status)
    ensures LatestCompleted(runs) == LatestCompleted(runs')
  {
    var r, r' := LatestCompleted(runs), LatestCompleted(runs');
    if r.Some? {
      assert SameCompletion(runs[r.value], runs'[r.value]);
    }
    if r'.Some? {
      assert SameCompletion(runs[r'.value], runs'[r'.value]);
    }
  }

  /** Updates that leave the completed runs and their rows alone leave the meaning
      alone. */
  lemma SameMeaning(t: Tables, t': Tables, done: Option<(string, int)>)
    requires IsNewest(t.runs, done)
    requires |t.runs| <= |t'.runs|
    requires forall j :: 0 <= j < |t.runs| ==> SameCompletion(t.runs[j], t'.runs[j])
    requires forall j :: |t.runs| <= j < |t'.runs| ==> !Completed(t'.runs[j].status)
    requires forall j :: 0 <= j < |t.runs| ==> PagesOf(t', t.runs[j].id) == PagesOf(t, t.runs[j].id)
    ensures IsNewest(t'.runs, done) && PriorPages(t') == PriorPages(t)
  {
    LatestSame(t.runs, t'.runs);
    var k := LatestCompleted(t.runs);
    if k.Some? {
      assert SameCompletion(t.runs[k.value], t'.runs[k.value]);
      forall j | 0 <= j < |t'.runs| && Completed(t'.runs[j].status) && j != k.value
        ensures t'.runs[j].observedAt < t'.runs[k.value].observedAt
      {
        assert SameCompletion(t.runs[j], t'.runs[j]);
      }
    }
  }

  lemma BeginSays(t: Tables, ids: set<string>, tracked: Pages, done: Option<(string, int)>, open: Option<(string, Source)>,
                  id: string, s: Source, at: int)
    requires Says(t, ids, tracked, done, open) && id !in ids
    ensures Says(BeginTables(t, id, s, at), ids + {id}, tracked, done, Some((id, s)))
  {
    var t' := BeginTables(t, id, s, at);
    SameMeaning(t, t', done);
    assert t'.runs[|t.runs|].id == id && !Completed(t'.runs[|t.runs|].status);
  }

  /** Completing the rows begun from the tracked pages gives the next tracked pages. */
  lemma CompleteMeansAfterBuild(tracked: Pages, s: Source, p: Public)
    requires forall i <- tracked :: Settled(tracked[i])
    ensures CompleteRows(BeginRows(tracked, s), p) == NextTracked(tracked, s, p)
    ensures forall i <- NextTracked(tracked, s, p) :: Settled(NextTracked(tracked, s, p)[i])
  {
  }

  /** The states a completed run can leave. */
  predicate Settled(row: PageRow) {
    row.state in {Unpublished, Published, MissingPublic, Deleted, DeletionIncomplete}
  }

  /** With distinct ids an update touches one run. */
  lemma SetStatusAt(runs: seq<RunRow>, ids: set<string>, k: nat, status: string, at: int)
    requires Keyed(runs, ids) && k < |runs|
    ensures SetStatus(runs, runs[k].id, status, at) == runs[k := runs[k].(status := status, observedAt := at)]
    ensures Keyed(runs[k := runs[k].(status := status, observedAt := at)], ids)
  {
    forall j | 0 <= j < |runs| && j != k ensures runs[j].id != runs[k].id {
      assert j < k || k < j;
    }
  }

  lemma CompleteSays(t: Tables, ids: set<string>, tracked: Pages, done: Option<(string, int)>, open: Option<(string, Source)>,
                     status: string, p: Public, at: int)
    requires Says(t, ids, tracked, done, open) && open.Some? && Completed(status)
    requires done.Some? ==> done.value.1 < at
    requires forall i <- tracked :: Settled(tracked[i])
    ensures Says(CompleteTables(t, open.value.0, status, p, at), ids, NextTracked(tracked, open.value.1, p),
                 Some((open.value.0, at)), None)
  {
    var (id, s) := open.value;
    var t' := CompleteTables(t, id, status, p, at);
    var k :| 0 <= k < |t.runs| && t.runs[k].id == id && !Completed(t.runs[k].status);
    SetStatusAt(t.runs, ids, k, status, at);
    LatestIs(t'.runs, k);
    CompleteMeansAfterBuild(tracked, s, p);
  }

  lemma FailSays(t: Tables, ids: set<string>, tracked: Pages, done: Option<(string, int)>, open: Option<(string, Source)>,
                 status: string, at: int)
    requires Says(t, ids, tracked, done, open) && open.Some? && !Completed(status)
    ensures Says(t.(runs := SetStatus(t.runs, open.value.0, status, at)), ids, tracked, done, None)
  {
    var t' := t.(runs := SetStatus(t.runs, open.value.0, status, at));
    var k :| 0 <= k < |t.runs| && t.runs[k].id == open.value.0 && !Completed(t.runs[k].status);
    SetStatusAt(t.runs, ids, k, status, at);
    SameMeaning(t, t', done);
  }

  lemma ReconcileSays(t: Tables, ids: set<string>, tracked: Pages, done: Option<(string, int)>, open: Option<(string, Source)>,
                      k: nat, s: Source, p: Public)
    requires Says(t, ids, tracked, done, open) && k < |t.runs|
    ensures Says(t.(runs := SetDrift(t, k, s, p)), ids, tracked, done, open)
  {
    var t' := t.(runs := SetDrift(t, k, s, p));
    SameMeaning(t, t', done);
    if open.Some? {
      var j :| 0 <= j < |t.runs| && t.runs[j].id == open.value.0 && !Completed(t.runs[j].status);
      assert t'.runs[j].id == open.value.0 && !Completed(t'.runs[j].status);
    }
  }

  lemma {:induction false} TrackedSettled(h: History)
    ensures forall i <- Tracked(h) :: Settled(Tracked(h)[i])
  {
    if h != [] {
      TrackedSettled(Init(h));
    }
  }

  /** The tables always say exactly what the completed runs say. */
  lemma {:induction false} LedgerRefinesHistory(h: History)
    requires Serial(h)
    ensures Refines(h, Replay(h))
  {
    if h != [] {
      var g := Init(h);
      LedgerRefinesHistory(g);
      TrackedSettled(g);
      match Last(h)
      case Begin(id, s, at) => BeginSays(Replay(g), Ids(g), Tracked(g), LastDone(g), Open(g), id, s, at);
      case Complete(status, p, at) => CompleteSays(Replay(g), Ids(g), Tracked(g), LastDone(g), Open(g), status, p, at);
      case Fail(status, at) => FailSays(Replay(g), Ids(g), Tracked(g), LastDone(g), Open(g), FailStatus(status), at);
      case Reconcile(s, p) =>
        var k := LatestCompleted(Replay(g).runs);
        if k.Some? {
          ReconcileSays(Replay(g), Ids(g), Tracked(g), LastDone(g), Open(g), k.value, s, p);
        }
    }
  }

  /** LatestBuildRun, which breaks ties freely, finds the run whose rows
      BeginBuildRun compares with. */
  lemma NewestIsLatest(h: History, k: nat)
    requires Serial(h) && IsNewestCompleted(Replay(h).runs, k)
    ensures LatestCompleted(Replay(h).runs) == Some(k)
    ensures LastDone(h).Some? && Replay(h).runs[k].id == LastDone(h).value.0
  {
    LedgerRefinesHistory(h);
  }

  // ----- the change set -----

  /** Source captured by, and public output of, the last completed run. */
  function LastBuild(h: History): (Source, Public) {
    if h == [] then (map[], map[])
    else if Last(h).Complete? && Open(Init(h)).Some? then (Open(Init(h)).value.1, Last(h).public)
    else LastBuild(Init(h))
  }

  /** Pages that had source in some completed run. */
  function EverBuilt(h: History): set<Identity> {
    if h == [] then {}
    else
      EverBuilt(Init(h)) + (if Last(h).Complete? && Open(Init(h)).Some? then Open(Init(h)).value.1.Keys else {})
  }

  /** The revision a page had in the last completed run that saw its source. */
  function LastSeenRevision(h: History, i: Identity): string {
    if h == [] then ""
    else if Last(h).Complete? && Open(Init(h)).Some? && i in Open(Init(h)).value.1 then Open(Init(h)).value.1[i].revision
    else LastSeenRevision(Init(h), i)
  }

  /** Tracked pages in terms of the completed runs, without the tables. */
  lemma {:induction false} TrackedMeans(h: History)
    ensures Tracked(h).Keys == EverBuilt(h) && LastBuild(h).0.Keys <= EverBuilt(h)
    ensures forall i <- Tracked(h) :: Tracked(h)[i].lastBuilt == LastSeenRevision(h, i)
    ensures var (s0, p0) := LastBuild(h);
      forall i <- Tracked(h) ::
        && Tracked(h)[i].sourceRevision == (if i in s0 then s0[i].revision else "")
        && Tracked(h)[i].publicRevision == (if i in p0 then p0[i] else "")
        && (i in s0 ==> Tracked(h)[i].lastBuilt == s0[i].revision)
        && Tracked(h)[i].state ==
             if i !in s0 then (if PublicRevision(p0, i) == "" then Deleted else DeletionIncomplete)
             else if s0[i].Hidden() then Unpublished
             else if PublicRevision(p0, i) == "" then MissingPublic else Published
  {
    if h != [] {
      TrackedMeans(Init(h));
    }
  }

  /** BeginBuildRun reports a source page exactly when the last completed run did not
      capture it, captured another revision, or left it without public output; and a
      page without source exactly when the last completed run captured it or still
      saw public output for it. Failed, abandoned and crashed builds in between make
      no difference, so no edit is lost. */
  lemma ChangesAreDiff(h: History, current: Source, i: Identity)
    requires Serial(h) && Hashed(current)
    requires i in current || i in Tracked(h)
    ensures var (s0, p0) := LastBuild(h);
      i in ChangedIdentities(PriorPages(Replay(h)), current) <==>
        if i in current then
          i !in s0 || current[i].revision != s0[i].revision || (!s0[i].Hidden() && PublicRevision(p0, i) == "")
        else i in s0 || PublicRevision(p0, i) != ""
  {
    LedgerRefinesHistory(h);
    TrackedMeans(h);
  }

  /** A build that never completes changes nothing about what the next one reports. */
  lemma FailedBuildLosesNothing(h: History, id: string, source: Source, at: int, fail: seq<Event>, current: Source)
    requires Serial(h) && !Blank(id) && id !in Ids(h) && Hashed(source) && Hashed(current)
    requires fail == [] || (|fail| == 1 && fail[0].Fail? && fail[0].status != "ok" && fail[0].status != "partial_success")
    ensures var h' := h + [Begin(id, source, at)] + fail;
      && Serial(h')
      && ChangedIdentities(PriorPages(Replay(h')), current) == ChangedIdentities(PriorPages(Replay(h)), current)
  {
    var h1 := h + [Begin(id, source, at)];
    var h' := h1 + fail;
    assert Init(h1) == h;
    assert Tracked(h1) == Tracked(h) && Serial(h1);
    if fail == [] {
      assert h' == h1;
    } else {
      assert Init(h') == h1 && Last(h') == fail[0];
    }
    LedgerRefinesHistory(h);
    LedgerRefinesHistory(h');
  }

  // ----- tombstones -----

  /** The rows of a run cover every identity of the last completed run before it. */
  lemma RunsKeepIdentities(h: History, id: string, current: Source, at: int)
    requires Serial(h) && !Blank(id) && id !in Ids(h) && Hashed(current)
    ensures var t := Replay(h + [Begin(id, current, at)]);
      PagesOf(t, id).Keys == EverBuilt(h) + current.Keys
      && PriorPages(Replay(h)).Keys == EverBuilt(h)
  {
    var h' := h + [Begin(id, current, at)];
    assert Init(h') == h;
    LedgerRefinesHistory(h);
    TrackedMeans(h);
  }

  /** A page once built stays known for ever, and without source it is a tombstone
      carrying the revision of the last completed run that saw its source. */
  lemma {:induction false} TombstonesArePermanent(h: History, more: History, i: Identity)
    requires Serial(h + more) && i in EverBuilt(h)
    ensures i in PriorPages(Replay(h + more))
    ensures PriorPages(Replay(h + more))[i].lastBuilt == LastSeenRevision(h + more, i)
    ensures i !in LastBuild(h + more).0 <==> PriorPages(Replay(h + more))[i].state in {Deleted, DeletionIncomplete}
    decreases |more|
  {
    LedgerRefinesHistory(h + more);
    TrackedMeans(h + more);
    if more == [] {
      assert h + more == h;
    } else {
      assert Init(h + more) == h + Init(more);
      TombstonesArePermanent(h, Init(more), i);
      LedgerRefinesHistory(h + Init(more));
      TrackedMeans(h + Init(more));
    }
  }

  /** An incomplete deletion is reported by every later build until a completed run
      sees the public output gone or the source back. */
  lemma IncompleteDeletionIsReported(h: History, current: Source, i: Identity)
    requires Serial(h) && Hashed(current) && i in EverBuilt(h)
    requires i !in current && i !in LastBuild(h).0
    ensures i in ChangedIdentities(PriorPages(Replay(h)), current) <==> PublicRevision(LastBuild(h).1, i) != ""
  {
    TrackedMeans(h);
    ChangesAreDiff(h, current, i);
  }

  // ----- convergence and drift -----

  /** A history whose last event completes a build of `s` with output `p`. */
  ghost predicate JustCompleted(h: History, s: Source, p: Public) {
    && Serial(h) && h != [] && Last(h).Complete? && Last(h).public == p
    && Open(Init(h)).Some? && Open(Init(h)).value.1 == s
  }

  function InState(rows: Pages, state: PageState): set<Identity> {
    set i | i in rows && rows[i].state == state
  }

  function LeakedUnpublished(rows: Pages, p: Public): set<Identity> {
    set i | i in rows && rows[i].state == Unpublished && PublicRevision(p, i) != ""
  }

  /** The rows of the completed run are the next tracked pages. */
  lemma JustCompletedRows(h: History, s: Source, p: Public)
    requires JustCompleted(h, s, p)
    ensures PriorPages(Replay(h)) == NextTracked(Tracked(Init(h)), s, p)
    ensures NextTracked(Tracked(Init(h)), s, p).Keys == EverBuilt(h)
  {
    LedgerRefinesHistory(h);
    TrackedMeans(h);
  }

  lemma DriftOf(tracked: Pages, s: Source, p: Public)
    ensures var rows := NextTracked(tracked, s, p);
      && SourceDriftSet(rows, s) == InState(rows, DeletionIncomplete)
      && PublicDriftSet(rows, p) == InState(rows, MissingPublic) + InState(rows, DeletionIncomplete) + LeakedUnpublished(rows, p)
      && InState(rows, MissingPublic) !! InState(rows, DeletionIncomplete)
      && (InState(rows, MissingPublic) + InState(rows, DeletionIncomplete)) !! LeakedUnpublished(rows, p)
  {
  }

  /** Right after a completion, with the same facts, the counters count exactly the
      pages that are not as they should be. */
  lemma DriftIsExact(h: History, s: Source, p: Public)
    requires JustCompleted(h, s, p)
    ensures var rows := PriorPages(Replay(h));
      && |SourceDriftSet(rows, s)| == |InState(rows, DeletionIncomplete)|
      && |PublicDriftSet(rows, p)| == |InState(rows, MissingPublic)| + |InState(rows, DeletionIncomplete)|
                                      + |LeakedUnpublished(rows, p)|
  {
    JustCompletedRows(h, s, p);
    DriftOf(Tracked(Init(h)), s, p);
  }

  /** Public output exists exactly for the visible source pages among those known. */
  predicate OutputMatches(known: set<Identity>, s: Source, p: Public) {
    forall i <- known :: PublicRevision(p, i) != "" <==> i in s && !s[i].Hidden()
  }

  lemma DriftEmptyIff(tracked: Pages, s: Source, p: Public)
    ensures var rows := NextTracked(tracked, s, p);
      SourceDriftSet(rows, s) == {} && PublicDriftSet(rows, p) == {} <==> OutputMatches(rows.Keys, s, p)
  {
    var rows := NextTracked(tracked, s, p);
    if !OutputMatches(rows.Keys, s, p) {
      var i :| i in rows.Keys && !(PublicRevision(p, i) != "" <==> i in s && !s[i].Hidden());
      assert i in PublicDriftSet(rows, p);
    }
  }

  lemma NextChanges(tracked: Pages, s: Source, p: Public)
    ensures var rows := NextTracked(tracked, s, p);
      ChangedIdentities(rows, s) == InState(rows, MissingPublic) + InState(rows, DeletionIncomplete)
  {
  }

  /** Both counters are zero exactly when the published site matches the source, and
      then the next build of the same source has nothing to do. */
  lemma ZeroDriftIffConverged(h: History, s: Source, p: Public)
    requires JustCompleted(h, s, p)
    ensures var rows := PriorPages(Replay(h));
      && (|SourceDriftSet(rows, s)| == 0 && |PublicDriftSet(rows, p)| == 0 <==> OutputMatches(EverBuilt(h), s, p))
      && (OutputMatches(EverBuilt(h), s, p) ==> ChangedIdentities(rows, s) == {})
      && ChangedIdentities(rows, s) == InState(rows, MissingPublic) + InState(rows, DeletionIncomplete)
  {
    JustCompletedRows(h, s, p);
    DriftOf(Tracked(Init(h)), s, p);
    DriftEmptyIff(Tracked(Init(h)), s, p);
    NextChanges(Tracked(Init(h)), s, p);
  }

  /** Right after a completion, with unchanged facts: a page counts as drift and is not
      listed by the next build exactly when it is a draft or test page whose output is
      still public. */
  lemma LeakedPageIsNotRepaired(h: History, s: Source, p: Public, i: Identity)
    requires JustCompleted(h, s, p)
    ensures var rows := PriorPages(Replay(h));
      i in (SourceDriftSet(rows, s) + PublicDriftSet(rows, p)) - ChangedIdentities(rows, s)
      <==> i in s && s[i].Hidden() && PublicRevision(p, i) != ""
  {
    JustCompletedRows(h, s, p);
    DriftOf(Tracked(Init(h)), s, p);
    NextChanges(Tracked(Init(h)), s, p);
  }
}
