/** What the ledger tells its callers, over every serial history: the list a new build
    gets, the rows it starts from, the two drift numbers, and the status of every run,
    each in terms of the builds that went before. */
module LedgerReports {
  import opened Common
  import opened BuildLedger
  import opened LedgerHistory

  lemma {:induction false} NeverSeen(h: History, i: Identity)
    ensures i !in EverBuilt(h) ==> LastSeenRevision(h, i) == ""
  {
    if h != [] {
      NeverSeen(Init(h), i);
    }
  }

  /** The last completed run had source for the page, not meant to be published. */
  predicate WasHidden(h: History, i: Identity) {
    i in LastBuild(h).0 && (LastBuild(h).0[i].draft || LastBuild(h).0[i].testContent)
  }

  /** The last completed run saw public output for the page. */
  predicate HadOutput(h: History, i: Identity) {
    i in LastBuild(h).1 && LastBuild(h).1[i] != ""
  }

  // ----- the changes a build is told about -----

  /** The page has moved since the last completed run, or that run left it incomplete. */
  predicate ToDo(h: History, current: Source, i: Identity) {
    if i in current then
      || i !in LastBuild(h).0
      || current[i].revision != LastBuild(h).0[i].revision
      || (!WasHidden(h, i) && !HadOutput(h, i))
    else i in EverBuilt(h) && (i in LastBuild(h).0 || HadOutput(h, i))
  }

  /** The list BeginBuildRun returns after any serial history: in identity order, one
      element for exactly the pages there is something to do for; a deletion exactly when
      the page has no source, and otherwise with that page's own two flags. */
  lemma ReturnedChanges(h: History, current: Source, changes: seq<Change>)
    requires Serial(h) && Hashed(current) && Reported(Replay(h), current, changes)
    ensures forall j, k :: 0 <= j < k < |changes| ==> Less(changes[j].identity, changes[k].identity)
    ensures forall i :: (exists c <- changes :: c.identity == i) <==> ToDo(h, current, i)
    ensures forall c <- changes :: c.deleted <==> c.identity !in current
    ensures forall c <- changes :: c.identity in current ==>
      c.draft == current[c.identity].draft && c.testContent == current[c.identity].testContent
    ensures forall c <- changes :: c.deleted ==> !c.draft && !c.testContent
  {
    forall j, k | 0 <= j < k < |changes| ensures Less(changes[j].identity, changes[k].identity) {
      assert Less(ChangeKey(changes[j]), ChangeKey(changes[k]));
    }
    forall i ensures (exists c <- changes :: c.identity == i) <==> ToDo(h, current, i) {
      ListedExactly(h, current, i);
      assert i in ChangedIdentities(PriorPages(Replay(h)), current) ==> ChangeOf(current, i) in changes;
    }
  }

  lemma ListedExactly(h: History, current: Source, i: Identity)
    requires Serial(h) && Hashed(current)
    ensures i in ChangedIdentities(PriorPages(Replay(h)), current) <==> ToDo(h, current, i)
  {
    LedgerRefinesHistory(h);
    TrackedMeans(h);
    if i in current || i in Tracked(h) {
      ChangesAreDiff(h, current, i);
    }
  }

  /** The rows a new run starts with. */
  lemma BegunRows(h: History, id: string, current: Source, at: int, i: Identity)
    requires Serial(h) && !Blank(id) && id !in Ids(h) && Hashed(current)
    ensures var rows := PagesOf(Replay(h + [Begin(id, current, at)]), id);
      && (i in rows <==> i in EverBuilt(h) || i in current)
      && (i in rows ==>
            && rows[i].sourceRevision == (if i in current then current[i].revision else "")
            && rows[i].lastBuilt == LastSeenRevision(h, i)
            && rows[i].publicRevision == (if i in EverBuilt(h) && i in LastBuild(h).1 then LastBuild(h).1[i] else "")
            && rows[i].state ==
                 if i !in current then (if ToDo(h, current, i) then DeletionPending else Deleted)
                 else if current[i].draft || current[i].testContent then Unpublished
                 else if ToDo(h, current, i) then Pending else Unchanged)
  {
    assert Init(h + [Begin(id, current, at)]) == h;
    LedgerRefinesHistory(h);
    TrackedMeans(h);
    NeverSeen(h, i);
    ListedExactly(h, current, i);
  }

  // ----- drift -----

  /** The source of the page differs from what the completed runs have seen of it. */
  predicate SourceMoved(h: History, current: Source, i: Identity) {
    if i in current then i !in EverBuilt(h) || current[i].revision != LastSeenRevision(h, i)
    else i in EverBuilt(h) && (i in LastBuild(h).0 || HadOutput(h, i))
  }

  /** The public output of the page differs from the last completed run, or was not as it
      should be there. */
  predicate PublicMoved(h: History, public: Public, i: Identity) {
    i in EverBuilt(h) &&
    var shown := i in public && public[i] != "";
    if i in LastBuild(h).0 && !WasHidden(h, i) then !HadOutput(h, i) || !shown || public[i] != LastBuild(h).1[i]
    else if WasHidden(h, i) then shown
    else HadOutput(h, i) || shown
  }

  function MovedSources(h: History, current: Source): set<Identity> {
    set i | i in EverBuilt(h) + current.Keys && SourceMoved(h, current, i)
  }

  function MovedOutputs(h: History, public: Public): set<Identity> {
    set i | i in EverBuilt(h) && PublicMoved(h, public, i)
  }

  lemma PriorIsTracked(h: History)
    requires Serial(h)
    ensures PriorPages(Replay(h)) == Tracked(h) && Tracked(h).Keys == EverBuilt(h)
  {
    LedgerRefinesHistory(h);
    TrackedMeans(h);
  }

  /** One row of the last completed run. */
  lemma TrackedRow(h: History, i: Identity)
    ensures i in Tracked(h) <==> i in EverBuilt(h)
    ensures i in LastBuild(h).0 ==> i in EverBuilt(h)
    ensures i in Tracked(h) ==>
      var row := Tracked(h)[i];
      && row.lastBuilt == LastSeenRevision(h, i)
      && row.publicRevision == (if i in LastBuild(h).1 then LastBuild(h).1[i] else "")
      && row.state == if i in LastBuild(h).0
                      then (if WasHidden(h, i) then Unpublished else if HadOutput(h, i) then Published else MissingPublic)
                      else if HadOutput(h, i) then DeletionIncomplete else Deleted
  {
    TrackedMeans(h);
  }

  lemma SourceDriftAt(h: History, current: Source, i: Identity)
    ensures i in SourceDriftSet(Tracked(h), current) <==> i in MovedSources(h, current)
  {
    TrackedRow(h, i);
  }

  lemma PublicDriftAt(h: History, public: Public, i: Identity)
    ensures i in PublicDriftSet(Tracked(h), public) <==> i in MovedOutputs(h, public)
  {
    TrackedRow(h, i);
  }

  lemma DriftMeans(h: History, current: Source, public: Public)
    requires Serial(h)
    ensures SourceDriftSet(PriorPages(Replay(h)), current) == MovedSources(h, current)
    ensures PublicDriftSet(PriorPages(Replay(h)), public) == MovedOutputs(h, public)
  {
    PriorIsTracked(h);
    forall i ensures i in SourceDriftSet(Tracked(h), current) <==> i in MovedSources(h, current) {
      SourceDriftAt(h, current, i);
    }
    forall i ensures i in PublicDriftSet(Tracked(h), public) <==> i in MovedOutputs(h, public) {
      PublicDriftAt(h, public, i);
    }
  }

  lemma LatestTables(h: History, k: nat, current: Source, public: Public)
    requires Serial(h) && IsNewestCompleted(Replay(h).runs, k)
    ensures Replay(h + [Reconcile(current, public)]) == Replay(h).(runs := SetDrift(Replay(h), k, current, public))
    ensures LastDone(h).Some? && Replay(h).runs[k].id == LastDone(h).value.0
    ensures PagesOf(Replay(h), Replay(h).runs[k].id) == PriorPages(Replay(h))
  {
    assert Init(h + [Reconcile(current, public)]) == h;
    NewestIsLatest(h, k);
  }

  /** Reconciliation against any facts whatever: the newest completed run gets the number
      of pages whose source has moved and the number whose output has moved, each in its
      own field, and nothing else changes. */
  lemma ReconciledDrift(h: History, k: nat, current: Source, public: Public)
    requires Serial(h) && IsNewestCompleted(Replay(h).runs, k)
    ensures var t, t' := Replay(h), Replay(h + [Reconcile(current, public)]);
      && t'.runs == SetDrift(t, k, current, public)
      && LastDone(h).Some? && t.runs[k].id == LastDone(h).value.0 && t.runs[k].status in {"ok", "partial_success"}
      && t'.pages == t.pages && |t'.runs| == |t.runs|
      && (forall j :: 0 <= j < |t.runs| && j != k ==> t'.runs[j] == t.runs[j])
      && t'.runs[k].sourceDrift == |MovedSources(h, current)|
      && t'.runs[k].publicDrift == |MovedOutputs(h, public)|
      && t'.runs[k].id == t.runs[k].id && t'.runs[k].status == t.runs[k].status && t'.runs[k].observedAt == t.runs[k].observedAt
  {
    LatestTables(h, k, current, public);
    DriftMeans(h, current, public);
  }

  // ----- the runs -----

  /** Status and time of a run, from the events alone. */
  function RunOf(h: History, id: string): Option<(string, int)> {
    if h == [] then None
    else
      var open := Open(Init(h));
      match Last(h)
      case Begin(id', _, at) => if id' == id then Some(("in_progress", at)) else RunOf(Init(h), id)
      case Complete(status, _, at) => if open.Some? && open.value.0 == id then Some((status, at)) else RunOf(Init(h), id)
      case Fail(status, at) =>
        if open.Some? && open.value.0 == id
        then Some((if forall c <- status :: c in " \t\r\n" then "failed" else status, at)) else RunOf(Init(h), id)
      case Reconcile(_, _) => RunOf(Init(h), id)
  }

  lemma RunAt(h: History, j: nat)
    requires Serial(h) && h != [] && j < |Replay(h).runs|
    requires j < |Replay(Init(h)).runs| ==>
      var r := Replay(Init(h)).runs[j];
      r.id in Ids(Init(h)) && RunOf(Init(h), r.id) == Some((r.status, r.observedAt))
    ensures var r := Replay(h).runs[j];
      r.id in Ids(h) && RunOf(h, r.id) == Some((r.status, r.observedAt))
  {
    var t, t' := Replay(Init(h)), Replay(h);
    match Last(h)
    case Begin(id, _, at) =>
      assert j < |t.runs| ==> t'.runs[j] == t.runs[j];
    case _ =>
      assert |t'.runs| == |t.runs| && t'.runs[j].id == t.runs[j].id;
  }

  /** Every run ever begun has one row, with the status and the time of its last event. */
  lemma {:induction false} RunsMean(h: History)
    requires Serial(h)
    ensures forall j :: 0 <= j < |Replay(h).runs| ==>
      var r := Replay(h).runs[j];
      r.id in Ids(h) && RunOf(h, r.id) == Some((r.status, r.observedAt))
  {
    if h != [] {
      RunsMean(Init(h));
      forall j | 0 <= j < |Replay(h).runs|
        ensures Replay(h).runs[j].id in Ids(h)
          && RunOf(h, Replay(h).runs[j].id) == Some((Replay(h).runs[j].status, Replay(h).runs[j].observedAt))
      {
        RunAt(h, j);
      }
    }
  }

  lemma {:induction false} EveryRunHasItsRow(h: History, id: string)
    requires Serial(h) && id in Ids(h)
    ensures exists j :: 0 <= j < |Replay(h).runs| && Replay(h).runs[j].id == id
  {
    var t, t' := Replay(Init(h)), Replay(h);
    if Last(h).Begin? && Last(h).id == id {
      assert t'.runs[|t.runs|].id == id;
    } else {
      EveryRunHasItsRow(Init(h), id);
      var j :| 0 <= j < |t.runs| && t.runs[j].id == id;
      assert t'.runs[j].id == id;
    }
  }

  lemma RunsAreDistinct(h: History, i: nat, j: nat)
    requires Serial(h) && i < j < |Replay(h).runs|
    ensures Replay(h).runs[i].id != Replay(h).runs[j].id
  {
    LedgerRefinesHistory(h);
  }
}
