/** The build ledger: runs in insertion order and, for each run, one row per page
    identity. Tables change in place, one transaction at a time; each method is proved
    against a function of the tables it found. */
module BuildLedger {
  import opened Common

  /** A normalised source key and language joined into one string. */
  type Identity = string

  datatype Fact = Fact(revision: string, draft: bool, testContent: bool) {
    /** Drafts and test pages are not meant to be published. */
    predicate Hidden() { draft || testContent }
  }

  type Source = map<Identity, Fact>
  type Public = map<Identity, string>

  /** The recorded public revision, empty when there is no public row. */
  function PublicRevision(public: Public, i: Identity): string {
    if i in public then public[i] else ""
  }

  datatype PageState =
    | Unchanged | Pending | Unpublished | Published | MissingPublic
    | DeletionPending | Deleted | DeletionIncomplete

  datatype PageRow = PageRow(sourceRevision: string, lastBuilt: string, publicRevision: string, state: PageState)

  datatype RunRow = RunRow(id: string, status: string, observedAt: int, sourceDrift: nat, publicDrift: nat)

  datatype Change = Change(identity: Identity, draft: bool, testContent: bool, deleted: bool)

  type Pages = map<Identity, PageRow>

  datatype Tables = Tables(runs: seq<RunRow>, pages: map<string, Pages>)

  predicate Completed(status: string) { status == "ok" || status == "partial_success" }

  // ----- queries -----

  /** Newest completed run: the greatest observation time, later rows first. */
  function LatestCompleted(runs: seq<RunRow>): (r: Option<nat>)
    ensures r.Some? ==> r.value < |runs| && Completed(runs[r.value].status)
    ensures r.Some? ==> forall j :: 0 <= j < |runs| && Completed(runs[j].status) ==>
      runs[j].observedAt < runs[r.value].observedAt || (runs[j].observedAt == runs[r.value].observedAt && j <= r.value)
    ensures r.None? ==> forall j :: 0 <= j < |runs| ==> !Completed(runs[j].status)
  {
    if runs == [] then None
    else
      var n := |runs| - 1;
      var r := LatestCompleted(runs[..n]);
      if Completed(runs[n].status) && (r.None? || runs[r.value].observedAt <= runs[n].observedAt) then Some(n) else r
  }

  function PagesOf(t: Tables, id: string): Pages {
    if id in t.pages then t.pages[id] else map[]
  }

  function PriorPages(t: Tables): Pages {
    var k := LatestCompleted(t.runs);
    if k.None? then map[] else PagesOf(t, t.runs[k.value].id)
  }

  predicate HasRun(runs: seq<RunRow>, id: string) {
    exists r <- runs :: r.id == id
  }

  // ----- begin -----

  predicate NeedsRepair(prior: PageRow) {
    prior.state != Published && prior.state != Unpublished
  }

  predicate Changed(prior: Pages, current: Source, i: Identity)
    requires i in prior || i in current
  {
    if i in current then
      (if i in prior then prior[i].lastBuilt else "") != current[i].revision || (i in prior && NeedsRepair(prior[i]))
    else prior[i].state != Deleted
  }

  function BeginRow(prior: Pages, current: Source, i: Identity): PageRow
    requires i in prior || i in current
  {
    if i in current then
      PageRow(current[i].revision,
              if i in prior then prior[i].lastBuilt else "",
              if i in prior then prior[i].publicRevision else "",
              if current[i].Hidden() then Unpublished else if Changed(prior, current, i) then Pending else Unchanged)
    else if prior[i].state == Deleted then PageRow("", prior[i].lastBuilt, "", Deleted)
    else PageRow("", prior[i].lastBuilt, prior[i].publicRevision, DeletionPending)
  }

  function ChangeOf(current: Source, i: Identity): Change {
    if i in current then Change(i, current[i].draft, current[i].testContent, false)
    else Change(i, false, false, true)
  }

  function BeginRows(prior: Pages, current: Source): Pages {
    map i | i in prior.Keys + current.Keys :: BeginRow(prior, current, i)
  }

  function ChangedIdentities(prior: Pages, current: Source): set<Identity> {
    set i | i in prior.Keys + current.Keys && Changed(prior, current, i)
  }

  function BeginTables(t: Tables, id: string, current: Source, at: int): Tables {
    Tables(t.runs + [RunRow(id, "in_progress", at, 0, 0)], t.pages[id := BeginRows(PriorPages(t), current)])
  }

  // ----- complete, fail -----

  function CompleteRow(row: PageRow, public: string): PageRow {
    var state := match row.state
      case DeletionPending => if public == "" then Deleted else DeletionIncomplete
      case Deleted => if public == "" then Deleted else DeletionIncomplete
      case Unpublished => Unpublished
      case _ => if public == "" then MissingPublic else Published;
    row.(state := state, publicRevision := public,
         lastBuilt := if state in {Deleted, DeletionIncomplete} then row.lastBuilt else row.sourceRevision)
  }

  function CompleteRows(rows: Pages, public: Public): Pages {
    map i | i in rows :: CompleteRow(rows[i], PublicRevision(public, i))
  }

  /** UPDATE build_runs ... WHERE build_id = id. */
  function SetStatus(runs: seq<RunRow>, id: string, status: string, at: int): seq<RunRow> {
    seq(|runs|, k requires 0 <= k < |runs| => if runs[k].id == id then runs[k].(status := status, observedAt := at) else runs[k])
  }

  function CompleteTables(t: Tables, id: string, status: string, public: Public, at: int): Tables {
    Tables(SetStatus(t.runs, id, status, at),
           if id in t.pages then t.pages[id := CompleteRows(t.pages[id], public)] else t.pages)
  }

  function FailStatus(status: string): string { if Blank(status) then "failed" else status }

  function FailTables(t: Tables, id: string, status: string, at: int): Tables {
    t.(runs := SetStatus(t.runs, id, FailStatus(status), at))
  }

  // ----- drift -----

  predicate SourceDrifts(rows: Pages, current: Source, i: Identity) {
    if i !in rows then i in current
    else if i in current then current[i].revision != rows[i].lastBuilt
    else rows[i].state != Deleted
  }

  predicate DriftsNow(built: PageRow, currentPublic: string) {
    match built.state
    case MissingPublic => true
    case DeletionIncomplete => true
    case Deleted => currentPublic != ""
    case Unpublished => currentPublic != ""
    case _ => currentPublic != built.publicRevision
  }

  predicate PublicDrifts(rows: Pages, public: Public, i: Identity)
    requires i in rows
  {
    DriftsNow(rows[i], PublicRevision(public, i))
  }

  function SourceDriftSet(rows: Pages, current: Source): set<Identity> {
    set i | i in rows.Keys + current.Keys && SourceDrifts(rows, current, i)
  }

  function PublicDriftSet(rows: Pages, public: Public): set<Identity> {
    set i | i in rows && PublicDrifts(rows, public, i)
  }

  function Id(s: string): string { s }

  function ChangeKey(c: Change): string { c.identity }

  /** What BeginBuildRun returns: the change of every changed identity, in identity
      order. `LedgerReports.ReturnedChanges` says what that means. */
  ghost predicate Reported(t: Tables, current: Source, changes: seq<Change>) {
    && Ascending(ChangeKey, changes)
    && (forall c :: c in changes <==>
          c.identity in ChangedIdentities(PriorPages(t), current) && c == ChangeOf(current, c.identity))
  }

  class BuildLedger {
    var runs: seq<RunRow>
    var pages: map<string, Pages>

    ghost function Model(): Tables
      reads this
    {
      Tables(runs, pages)
    }

    constructor ()
      ensures Model() == Tables([], map[])
    {
      runs, pages := [], map[];
    }

    method BeginBuildRun(id: string, current: Source, at: int) returns (ok: bool, changes: seq<Change>)
      modifies this
      ensures ok <==> (exists c <- id :: c !in " \t\r\n") && forall r <- old(runs) :: r.id != id
      ensures !ok ==> Model() == old(Model())
      ensures ok ==> Model() == BeginTables(old(Model()), id, current, at)
      ensures ok ==> Reported(old(Model()), current, changes)
    {
      if Blank(id) {
        return false, [];
      }
      var prior := PriorPages(Tables(runs, pages));
      if HasRun(runs, id) {
        return false, [];
      }
      var rows;
      rows, changes := SnapshotSource(prior, current);
      rows, changes := SnapshotMissing(prior, current, rows, changes);
      assert rows == BeginRows(prior, current);
      SortSorts(ChangeKey, changes);
      SortKeeps(ChangeKey, changes);
      changes := SortBy(ChangeKey, changes);
      assert forall c :: c in changes <==>
        c.identity in ChangedIdentities(prior, current) && c == ChangeOf(current, c.identity);
      runs := runs + [RunRow(id, "in_progress", at, 0, 0)];
      pages := pages[id := rows];
      return true, changes;
    }

    method CompleteBuildRun(id: string, status: string, public: Public, at: int) returns (ok: bool)
      modifies this
      ensures ok <==> (exists c <- id :: c !in " \t\r\n") && exists r <- old(runs) :: r.id == id
      ensures !ok ==> Model() == old(Model())
      ensures ok ==> Model() == CompleteTables(old(Model()), id, status, public, at)
    {
      if Blank(id) || !HasRun(runs, id) {
        return false;
      }
      runs := SetStatus(runs, id, status, at);
      if id in pages {
        var rows := AdvanceRows(pages[id], public);
        pages := pages[id := rows];
      }
      return true;
    }

    method FailBuildRun(id: string, status: string, at: int) returns (ok: bool)
      modifies this
      ensures ok <==> exists c <- id :: c !in " \t\r\n"
      ensures Model() == if ok then FailTables(old(Model()), id, status, at) else old(Model())
    {
      if Blank(id) {
        return false;
      }
      runs := SetStatus(runs, id, if Blank(status) then "failed" else status, at);
      return true;
    }

    /** LatestBuildRun breaks ties in no particular way: any newest completed run. */
    method LatestBuildRun() returns (k: Option<nat>)
      ensures k.None? <==> LatestCompleted(runs).None?
      ensures k.Some? ==> k.value < |runs| && Completed(runs[k.value].status)
      ensures k.Some? ==> forall j :: 0 <= j < |runs| && Completed(runs[j].status) ==>
        runs[j].observedAt <= runs[k.value].observedAt
    {
      k := None;
      for i := 0 to |runs|
        invariant k.None? ==> forall j :: 0 <= j < i ==> !Completed(runs[j].status)
        invariant k.Some? ==> k.value < i && Completed(runs[k.value].status)
        invariant k.Some? ==> forall j :: 0 <= j < i && Completed(runs[j].status) ==>
          runs[j].observedAt <= runs[k.value].observedAt
      {
        if Completed(runs[i].status) && (k.None? || runs[k.value].observedAt < runs[i].observedAt) {
          k := Some(i);
        }
      }
    }

    /** Recount drift against fresh facts and store the two counters on the run. */
    method ReconcileLatestBuild(current: Source, public: Public) returns (run: Option<nat>)
      modifies this`runs
      ensures run.None? <==> LatestCompleted(old(runs)).None?
      ensures run.None? ==> runs == old(runs)
      ensures run.Some? ==> IsNewestCompleted(old(runs), run.value)
      ensures run.Some? ==> runs == SetDrift(old(Model()), run.value, current, public)
    {
      run := LatestBuildRun();
      if run.None? {
        return;
      }
      var rows := PagesOf(Tables(runs, pages), runs[run.value].id);
      var sourceDrift, publicDrift := CountBuilt(rows, current, public);
      var unseen := CountUnseen(rows, current);
      SourceDriftParts(rows, current);
      assert sourceDrift + unseen == |SourceDriftSet(rows, current)|;
      runs := runs[run.value := runs[run.value].(sourceDrift := sourceDrift + unseen, publicDrift := publicDrift)];
    }
  }

  predicate IsNewestCompleted(runs: seq<RunRow>, k: nat) {
    && k < |runs| && Completed(runs[k].status)
    && forall j :: 0 <= j < |runs| && Completed(runs[j].status) ==> runs[j].observedAt <= runs[k].observedAt
  }

  function SetDrift(t: Tables, k: nat, current: Source, public: Public): seq<RunRow>
    requires k < |t.runs|
  {
    var rows := PagesOf(t, t.runs[k].id);
    t.runs[k := t.runs[k].(sourceDrift := |SourceDriftSet(rows, current)|, publicDrift := |PublicDriftSet(rows, public)|)]
  }

  function BuiltDrift(rows: Pages, current: Source): set<Identity> {
    set i | i in rows && SourceDrifts(rows, current, i)
  }

  lemma SourceDriftParts(rows: Pages, current: Source)
    ensures |SourceDriftSet(rows, current)| == |BuiltDrift(rows, current)| + |current.Keys - rows.Keys|
  {
    assert SourceDriftSet(rows, current) == BuiltDrift(rows, current) + (current.Keys - rows.Keys);
  }

  // Both counters over the part of the rows visited so far.

  function SourceSoFar(rows: Pages, current: Source, done: set<Identity>): set<Identity> {
    set i | i in done && SourceDrifts(rows, current, i)
  }

  function PublicSoFar(rows: Pages, public: Public, done: set<Identity>): set<Identity> {
    set i | i in done && i in rows && PublicDrifts(rows, public, i)
  }

  lemma VisitRow(rows: Pages, current: Source, public: Public, done: set<Identity>, i: Identity)
    requires i in rows && i !in done
    ensures |SourceSoFar(rows, current, done + {i})|
      == |SourceSoFar(rows, current, done)| + if SourceDrifts(rows, current, i) then 1 else 0
    ensures |PublicSoFar(rows, public, done + {i})|
      == |PublicSoFar(rows, public, done)| + if PublicDrifts(rows, public, i) then 1 else 0
  {
    var s, p := SourceSoFar(rows, current, done), PublicSoFar(rows, public, done);
    assert SourceSoFar(rows, current, done + {i}) == if SourceDrifts(rows, current, i) then s + {i} else s;
    assert PublicSoFar(rows, public, done + {i}) == if PublicDrifts(rows, public, i) then p + {i} else p;
  }

  /** The loop over the run's rows. */
  method CountBuilt(rows: Pages, current: Source, public: Public) returns (sourceDrift: nat, publicDrift: nat)
    ensures sourceDrift == |BuiltDrift(rows, current)|
    ensures publicDrift == |PublicDriftSet(rows, public)|
  {
    sourceDrift, publicDrift := 0, 0;
    var left := rows.Keys;
    while left != {}
      invariant left <= rows.Keys
      invariant sourceDrift == |SourceSoFar(rows, current, rows.Keys - left)|
      invariant publicDrift == |PublicSoFar(rows, public, rows.Keys - left)|
    {
      var i :| i in left;
      assert rows.Keys - (left - {i}) == (rows.Keys - left) + {i};
      VisitRow(rows, current, public, rows.Keys - left, i);
      left := left - {i};
      var built := rows[i];
      if (i !in current && built.state != Deleted) || (i in current && current[i].revision != built.lastBuilt) {
        sourceDrift := sourceDrift + 1;
      }
      if DriftsNow(built, PublicRevision(public, i)) {
        publicDrift := publicDrift + 1;
      }
    }
    assert SourceSoFar(rows, current, rows.Keys) == BuiltDrift(rows, current);
    assert PublicSoFar(rows, public, rows.Keys) == PublicDriftSet(rows, public);
    assert rows.Keys - {} == rows.Keys;
  }

  /** The loop over source pages the run has no row for. */
  method CountUnseen(rows: Pages, current: Source) returns (unseen: nat)
    ensures unseen == |current.Keys - rows.Keys|
  {
    unseen := 0;
    var left := current.Keys;
    ghost var all := current.Keys - rows.Keys;
    assert all - left == {};
    while left != {}
      invariant left <= current.Keys
      invariant unseen == |all - left|
    {
      var i :| i in left;
      VisitUnseen(all, left, i);
      left := left - {i};
      if i !in rows {
        unseen := unseen + 1;
      }
    }
    assert all - {} == all;
  }

  lemma VisitUnseen(all: set<Identity>, left: set<Identity>, i: Identity)
    requires i in left
    ensures |all - (left - {i})| == |all - left| + if i in all then 1 else 0
  {
    assert all - (left - {i}) == if i in all then (all - left) + {i} else all - left;
  }

  /** The state switch and the advance of one row. */
  method AdvanceRow(u: PageRow, publicRevision: string) returns (row: PageRow)
    ensures row == CompleteRow(u, publicRevision)
  {
    var state := u.state;
    if state == DeletionPending && publicRevision == "" {
      state := Deleted;
    } else if state == DeletionPending {
      state := DeletionIncomplete;
    } else if state == Deleted && publicRevision == "" {
    } else if state == Deleted {
      state := DeletionIncomplete;
    } else if state == Unpublished {
    } else if publicRevision == "" {
      state := MissingPublic;
    } else {
      state := Published;
    }
    var nextLastBuilt := u.sourceRevision;
    if state == Deleted || state == DeletionIncomplete {
      nextLastBuilt := u.lastBuilt;
    }
    row := PageRow(u.sourceRevision, nextLastBuilt, publicRevision, state);
  }

  /** The loop of CompleteBuildRun over the run's rows. */
  method AdvanceRows(found: Pages, public: Public) returns (rows: Pages)
    ensures rows == CompleteRows(found, public)
  {
    rows := found;
    var left := found.Keys;
    while left != {}
      invariant left <= found.Keys && rows.Keys == found.Keys
      invariant forall i <- rows :: rows[i] == if i in left then found[i] else CompleteRow(found[i], PublicRevision(public, i))
    {
      var i :| i in left;
      left := left - {i};
      var row := AdvanceRow(found[i], PublicRevision(public, i));
      rows := rows[i := row];
    }
  }

  /** The row and the change decision for one source page. */
  method SnapshotPage(prior: Pages, current: Source, i: Identity) returns (row: PageRow, changed: bool)
    requires i in current
    ensures row == BeginRow(prior, current, i)
    ensures changed == Changed(prior, current, i)
  {
    var fact := current[i];
    var priorBuilt := if i in prior then prior[i].lastBuilt else "";
    var state := if fact.Hidden() then Unpublished else Unchanged;
    changed := priorBuilt != fact.revision || (i in prior && NeedsRepair(prior[i]));
    if changed {
      if state == Unchanged {
        state := Pending;
      }
    }
    row := PageRow(fact.revision, priorBuilt, if i in prior then prior[i].publicRevision else "", state);
  }

  /** The loop of BeginBuildRun over the source pages, in identity order. */
  method SnapshotSource(prior: Pages, current: Source) returns (rows: Pages, changes: seq<Change>)
    ensures rows.Keys == current.Keys
    ensures forall i <- rows :: rows[i] == BeginRow(prior, current, i)
    ensures Lists(changes, prior, current, rows.Keys)
  {
    rows, changes := map[], [];
    var identities := SortedKeys(current.Keys);
    AscendingDistinct(identities);
    for k := 0 to |identities|
      invariant rows.Keys <= current.Keys
      invariant forall j :: 0 <= j < |identities| ==> (identities[j] in rows <==> j < k)
      invariant forall i <- rows :: rows[i] == BeginRow(prior, current, i)
      invariant Lists(changes, prior, current, rows.Keys)
    {
      var i := identities[k];
      assert i in current.Keys;
      var row, changed := SnapshotPage(prior, current, i);
      if changed {
        ListsAppend(changes, prior, current, rows.Keys, i);
        changes := changes + [ChangeOf(current, i)];
      } else {
        ListsSkip(changes, prior, current, rows.Keys, i);
      }
      rows := rows[i := row];
    }
    assert forall i <- current :: i in identities;
  }

  /** The loop of BeginBuildRun over tracked pages that have lost their source. */
  method SnapshotMissing(prior: Pages, current: Source, rows0: Pages, changes0: seq<Change>)
    returns (rows: Pages, changes: seq<Change>)
    requires rows0.Keys == current.Keys
    requires forall i <- rows0 :: rows0[i] == BeginRow(prior, current, i)
    requires Lists(changes0, prior, current, current.Keys)
    ensures rows.Keys == prior.Keys + current.Keys
    ensures forall i <- rows :: rows[i] == BeginRow(prior, current, i)
    ensures Lists(changes, prior, current, rows.Keys)
  {
    rows, changes := rows0, changes0;
    var left := prior.Keys;
    while left != {}
      invariant left <= prior.Keys
      invariant rows.Keys == current.Keys + (prior.Keys - left)
      invariant forall i <- rows :: rows[i] == BeginRow(prior, current, i)
      invariant Lists(changes, prior, current, rows.Keys)
    {
      var i :| i in left;
      left := left - {i};
      if i in current {
        continue;
      }
      assert i !in rows;
      if prior[i].state == Deleted {
        ListsSkip(changes, prior, current, rows.Keys, i);
        rows := rows[i := PageRow("", prior[i].lastBuilt, "", Deleted)];
        continue;
      }
      ListsAppend(changes, prior, current, rows.Keys, i);
      changes := changes + [Change(i, false, false, true)];
      rows := rows[i := PageRow("", prior[i].lastBuilt, prior[i].publicRevision, DeletionPending)];
    }
  }

  /** `changes` holds the change of every changed identity in `done`, each once. */
  ghost predicate Lists(changes: seq<Change>, prior: Pages, current: Source, done: set<Identity>)
    requires done <= prior.Keys + current.Keys
  {
    && DistinctKeys(ChangeKey, changes)
    && (forall c :: c in changes <==> c.identity in done && Changed(prior, current, c.identity) && c == ChangeOf(current, c.identity))
  }

  lemma ListsAppend(changes: seq<Change>, prior: Pages, current: Source, done: set<Identity>, i: Identity)
    requires done <= prior.Keys + current.Keys && i in prior.Keys + current.Keys && i !in done
    requires Lists(changes, prior, current, done) && Changed(prior, current, i)
    ensures Lists(changes + [ChangeOf(current, i)], prior, current, done + {i})
  {
    forall k | 0 <= k < |changes| ensures ChangeKey(changes[k]) != i {
      assert changes[k] in changes;
    }
  }

  lemma ListsSkip(changes: seq<Change>, prior: Pages, current: Source, done: set<Identity>, i: Identity)
    requires done <= prior.Keys + current.Keys && i in prior.Keys + current.Keys && i !in done
    requires Lists(changes, prior, current, done) && !Changed(prior, current, i)
    ensures Lists(changes, prior, current, done + {i})
  {
  }

  lemma AscendingDistinct(xs: seq<string>)
    requires Ascending(Id, xs)
    ensures forall i, j :: 0 <= i < j < |xs| ==> xs[i] != xs[j]
  {
    forall i, j | 0 <= i < j < |xs| ensures xs[i] != xs[j] {
      LessTotal(xs[i], xs[j]);
    }
  }

  /** The keys of a map, collected in any order and sorted. */
  method SortedKeys(keys: set<string>) returns (r: seq<string>)
    ensures Ascending(Id, r) && forall k :: k in r <==> k in keys
  {
    r := [];
    var left := keys;
    while left != {}
      invariant left <= keys
      invariant DistinctKeys(Id, r)
      invariant forall k :: k in r <==> k in keys - left
    {
      var k :| k in left;
      left := left - {k};
      forall j | 0 <= j < |r| ensures r[j] != k {
        assert r[j] in r;
      }
      r := r + [k];
    }
    SortSorts(Id, r);
    SortKeeps(Id, r);
    r := SortBy(Id, r);
  }
}
