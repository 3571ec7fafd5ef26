/** Startup recovery as the server performs it: in-place changes of the disk, the
    recovery journal and the idempotency table, proved against module Recovery. */
module RecoveryServer {
  import opened Common
  import opened Recovery

  /** Visible files, and temporary files kept apart because their names are fresh. */
  class Disk {
    var files: Files
    var temps: map<nat, string>
    var nextTemp: nat

    constructor (initial: Files)
      ensures files == initial && temps == map[]
    {
      files, temps, nextTemp := initial, map[], 0;
    }

    /** Write beside the target and rename over it. `stage` is how many of the six
        steps go through; `died` tells a crash from an error, after which the
        deferred removal of the temporary file does not run. */
    method AtomicWriteChecked(path: Path, content: string, stage: nat, written: nat, died: bool) returns (ok: bool)
      modifies this
      ensures ok == (stage >= 6 && !Blocked(files, path))
      ensures ok ==> files == SetFile(old(files), path, Some(content))
      ensures !ok ==> files == old(files)
      ensures ok || !died ==> temps == old(temps) - {old(nextTemp)}
    {
      ok := false;
      // mkdirAll and the first revalidation, then CreateTemp
      if stage < 2 || exists q <- files :: q != path && Within(q, path) {
        temps := temps - {nextTemp};
        return;
      }
      var tmp := nextTemp;
      nextTemp := nextTemp + 1;
      temps := temps[tmp := ""];
      if stage == 2 {
        temps := temps[tmp := content[..if written < |content| then written else |content|]];
      } else {
        temps := temps[tmp := content];
        // close, the second revalidation, then rename
        if stage >= 6 && !(exists q <- files :: q != path && Within(path, q)) {
          files := files[path := temps[tmp]];
          temps := temps - {tmp};
          return true;
        }
      }
      if !died {
        temps := temps - {tmp};
      }
    }

    /** A missing file counts as removed; a directory does not go. */
    method Remove(path: Path) returns (ok: bool)
      modifies this`files
      ensures ok == !Blocked(old(files), path)
      ensures files == if ok then SetFile(old(files), path, None) else old(files)
    {
      if exists q <- files :: q != path && (Within(path, q) || Within(q, path)) {
        return false;
      }
      files := files - {path};
      return true;
    }

    /** A recursive removal; when `complete` is false it stopped after `torn`. */
    method RemoveAll(path: Path, complete: bool, torn: set<Path>)
      modifies this`files
      ensures files == if complete then RemoveTree(old(files), path) else TearTree(old(files), path, torn)
    {
      files := map q | q in files && !(Within(path, q) && (complete || q in torn)) :: files[q];
    }
  }

  datatype Prepared = Prepared(id: string, entry: Entry, landed: bool)

  datatype StoredResult = StoredResult(requestHash: string, result: string, createdAt: int)

  datatype CommitFault = NoFault | RememberFails | RecordFails

  type Journal = map<string, Entry>
  type Results = map<(string, string, string), StoredResult>

  function StoredFor(e: Entry): StoredResult
    requires e.payload.Some? && e.payload.value.receipt.Some?
  {
    var r := e.payload.value.receipt.value;
    StoredResult(r.requestHash, r.result, e.updatedAt)
  }

  /** A landed entry with a result in its payload owes the idempotency table a row. */
  predicate Owes(e: Entry) {
    e.payload.Some? && e.payload.value.receipt.Some? && e.payload.value.receipt.value.result != ""
  }

  predicate CanRecord(id: string, e: Entry) { id != "" && e.kind != "" && e.state != "" }

  /** The upsert keeps the kind of a row that is already there. */
  function Record(journal: Journal, id: string, e: Entry): Journal {
    journal[id := if id in journal then e.(kind := journal[id].kind) else e]
  }

  function Commit(journal: Journal, results: Results, p: Prepared, fault: CommitFault): (Journal, Results) {
    var e := p.entry;
    if p.landed && Owes(e) && (!e.payload.value.receipt.value.Storable() || fault == RememberFails) then (journal, results)
    else
      var results' := if p.landed && Owes(e) then results[e.payload.value.receipt.value.Slot() := StoredFor(e)] else results;
      var done := e.(state := "reconciled");
      if fault == RecordFails || !CanRecord(p.id, done) then (journal, results')
      else (Record(journal, p.id, done), results')
  }

  /** Commit rows in order until the process dies after the last given fault. */
  function CommitAll(journal: Journal, results: Results, ps: seq<Prepared>, faults: seq<CommitFault>): (Journal, Results)
    decreases |ps|
  {
    if ps == [] || faults == [] then (journal, results)
    else
      var (j, r) := Commit(journal, results, ps[0], faults[0]);
      CommitAll(j, r, ps[1..], faults[1..])
  }

  /** The entries of `order` handled one after another: the files, what is ready to
      commit, and whether source files are reported changed. */
  function PrepareAll(root: Path, journal: Journal, order: seq<string>, files: Files, faults: string -> Faults)
    : (r: (Files, seq<Prepared>, bool))
    requires forall id <- order :: id in journal
    decreases |order|
  {
    if order == [] then (files, [], false)
    else
      var id, e := order[0], journal[order[0]];
      if !e.Active() then PrepareAll(root, journal, order[1..], files, faults)
      else
        var (o, files') := Recover(root, e, files, faults(id));
        var (end, ps, changed) := PrepareAll(root, journal, order[1..], files', faults);
        (end, if o.Resolved? then [Prepared(id, e, o.landed)] + ps else ps, o.changed || changed)
  }

  class RecoveryServer {
    const root: Path
    const disk: Disk
    var journal: Journal
    var results: Results

    constructor (root: Path, disk: Disk, journal: Journal, results: Results)
      ensures this.root == root && this.disk == disk && this.journal == journal && this.results == results
    {
      this.root, this.disk, this.journal, this.results := root, disk, journal, results;
    }

    /** reconcileBundleFiles; `err` is an input/output failure part-way. */
    method ReconcileBundleFiles(e: Entry, faults: Faults, died: bool)
      returns (resolved: bool, changed: bool, landed: bool, err: bool)
      requires e.payload.Some? && e.Bundle()
      modifies disk
      ensures var (o, files') := Recover(root, e, old(disk.files), faults);
        && disk.files == files'
        && resolved == o.Resolved?
        && changed == o.changed
        && (resolved ==> landed == o.landed && !err)
    {
      var p := e.payload.value;
      var roots := Roots(root, e);
      ghost var start := disk.files;
      resolved, changed, landed, err := false, false, false, false;
      if |p.files| == 0 {
        return;
      }
      var allBefore, allAfter := true, true;
      for i := 0 to |p.files|
        invariant disk.files == start
        invariant forall k :: 0 <= k < i ==> p.files[k].path !in faults.unreadable && !Blocked(start, p.files[k].path)
        invariant forall k :: 0 <= k < i ==>
          Allowed(roots, p.files[k].path) && (IsBefore(start, p.files[k]) || IsAfter(start, p.files[k]))
        invariant allBefore <==> forall k :: 0 <= k < i ==> IsBefore(start, p.files[k])
        invariant allAfter <==> forall k :: 0 <= k < i ==> IsAfter(start, p.files[k])
      {
        var f := p.files[i];
        if !Allowed(roots, f.path) {
          assert f in p.files;
          return;
        }
        if f.path in faults.unreadable || Blocked(disk.files, f.path) {
          assert f.path in ReadPaths(e);
          assert f.path in faults.unreadable ==> f.path in ReadPaths(e) * faults.unreadable;
          return false, false, false, true;
        }
        var before, after := IsBefore(disk.files, f), IsAfter(disk.files, f);
        if !before && !after {
          assert f in p.files;
          return;
        }
        allBefore, allAfter := allBefore && before, allAfter && after;
      }
      ScanIsVerdict(roots, start, p.files);
      assert ReadPaths(e) * faults.unreadable == {} && forall q <- ReadPaths(e) :: !Blocked(start, q);
      if allBefore {
        return true, false, false, false;
      }
      if allAfter {
        var done, swept;
        done, swept, err := RemoveCleanupPaths(roots, p.cleanup, faults);
        return done, done && swept, done, err;
      }
      var ok := RestoreBefore(p.files, faults, died);
      return ok, ok, false, !ok;
    }

    /** The cleanup loop of a landed entry; `err` tells a failed removal from a path
        outside its roots. */
    method RemoveCleanupPaths(roots: set<Path>, cleanup: seq<Path>, faults: Faults)
      returns (done: bool, changed: bool, err: bool)
      modifies disk
      ensures (done, disk.files) == CleanUp(roots, old(disk.files), cleanup, faults, faults.changes)
      ensures changed == (cleanup != [] && Allowed(roots, cleanup[0]) && faults.changes > 0)
      ensures done ==> !err && changed == (cleanup != [])
    {
      ghost var start := disk.files;
      changed := false;
      assert cleanup[0..] == cleanup;
      for i := 0 to |cleanup|
        invariant i <= faults.changes
        invariant changed <==> i > 0
        invariant i > 0 ==> Allowed(roots, cleanup[0])
        invariant CleanUp(roots, start, cleanup, faults, faults.changes)
          == CleanUp(roots, disk.files, cleanup[i..], faults, faults.changes - i)
      {
        assert cleanup[i..][0] == cleanup[i] && cleanup[i..][1..] == cleanup[i+1..];
        if !Allowed(roots, cleanup[i]) {
          return false, changed, false;
        }
        if i == faults.changes {
          disk.RemoveAll(cleanup[i], false, faults.torn);
          return false, changed, true;
        }
        disk.RemoveAll(cleanup[i], true, {});
        changed := true;
      }
      return true, changed, false;
    }

    /** The write-back loop of a mixed bundle. */
    method RestoreBefore(changes: seq<FileChange>, faults: Faults, died: bool) returns (ok: bool)
      modifies disk
      ensures (ok, disk.files) == RollBack(old(disk.files), changes, faults.changes)
    {
      ghost var start := disk.files;
      assert changes[0..] == changes;
      for i := 0 to |changes|
        invariant i <= faults.changes
        invariant RollBack(start, changes, faults.changes) == RollBack(disk.files, changes[i..], faults.changes - i)
      {
        var f := changes[i];
        assert changes[i..][0] == f && changes[i..][1..] == changes[i+1..];
        if f.before.None? {
          if i == faults.changes {
            return false;
          }
          ok := disk.Remove(f.path);
          if !ok {
            return;
          }
          continue;
        }
        ok := disk.AtomicWriteChecked(f.path, f.before.value,
                                      if i == faults.changes then faults.stage % 6 else 6, 0, died);
        if !ok {
          return;
        }
      }
      return true;
    }

    /** The single-file branch of prepareMutationRecovery. */
    method ReconcilePage(e: Entry, faults: Faults) returns (resolved: bool, changed: bool, landed: bool)
      requires e.payload.Some? && !e.Bundle()
      modifies disk
      ensures var (o, files') := Recover(root, e, old(disk.files), faults);
        && disk.files == files'
        && resolved == o.Resolved?
        && changed == o.changed
        && (resolved ==> landed == o.landed)
    {
      var p := e.payload.value;
      ghost var start := disk.files;
      resolved, changed, landed := false, false, false;
      if !Within(root, p.path) || p.path in faults.unreadable || Blocked(disk.files, p.path) {
        assert p.path in faults.unreadable ==> p.path in ReadPaths(e) * faults.unreadable;
        return;
      }
      var exists_ := p.path in disk.files;
      var observed := RevisionAt(disk.files, p.path);
      resolved := (exists_ && (observed == p.beforeRevision || observed == p.afterRevision))
        || (!exists_ && (p.beforeRevision == "" || p.afterRevision == ""));
      if !resolved {
        return;
      }
      landed := (exists_ && observed == p.afterRevision) || (!exists_ && p.afterRevision == "");
      if landed {
        var err;
        resolved, changed, err := RemoveCleanupPaths({root}, p.cleanup, faults);
      }
    }

    /** prepareMutationRecovery over the pending rows in journal order. */
    method PrepareMutationRecovery(order: seq<string>, faults: string -> Faults, died: bool)
      returns (prepared: seq<Prepared>, sourceChanged: bool)
      requires forall id <- order :: id in journal
      modifies disk
      ensures (disk.files, prepared, sourceChanged) == PrepareAll(root, journal, order, old(disk.files), faults)
    {
      prepared, sourceChanged := [], false;
      ghost var start := disk.files;
      assert order[0..] == order;
      for i := 0 to |order|
        invariant var all, rest := PrepareAll(root, journal, order, start, faults),
                                   PrepareAll(root, journal, order[i..], disk.files, faults);
          all.0 == rest.0 && all.1 == prepared + rest.1 && all.2 == (sourceChanged || rest.2)
      {
        var id := order[i];
        assert order[i..][0] == id && order[i..][1..] == order[i+1..];
        assert id in journal;
        var entry := journal[id];
        if !entry.Active() {
          continue;
        }
        var resolved, changed, landed;
        if entry.Bundle() {
          var err;
          resolved, changed, landed, err := ReconcileBundleFiles(entry, faults(id), died);
        } else {
          resolved, changed, landed := ReconcilePage(entry, faults(id));
        }
        ghost var rest := PrepareAll(root, journal, order[i+1..], disk.files, faults).1;
        ghost var was := prepared;
        if resolved {
          prepared := prepared + [Prepared(id, entry, landed)];
          assert was + ([Prepared(id, entry, landed)] + rest) == prepared + rest;
        }
        sourceChanged := sourceChanged || changed;
      }
      assert prepared + [] == prepared;
    }

    /** commitRecoveryReconciliation; the process dies after |faults| rows. */
    method CommitRecoveryReconciliation(entries: seq<Prepared>, faults: seq<CommitFault>)
      modifies this`journal, this`results
      ensures (journal, results) == CommitAll(old(journal), old(results), entries, faults)
    {
      var i := 0;
      while i < |entries| && i < |faults|
        invariant 0 <= i <= |entries| && i <= |faults|
        invariant CommitAll(journal, results, entries[i..], faults[i..])
          == CommitAll(old(journal), old(results), entries, faults)
      {
        var p := entries[i];
        assert entries[i..][0] == p && entries[i..][1..] == entries[i+1..];
        assert faults[i..][0] == faults[i] && faults[i..][1..] == faults[i+1..];
        var entry := p.entry;
        if p.landed && Owes(entry) {
          var idem := entry.payload.value.receipt.value;
          if !idem.Storable() || faults[i] == RememberFails {
            i := i + 1;
            continue;
          }
          results := results[idem.Slot() := StoredFor(entry)];
        }
        entry := entry.(state := "reconciled");
        if faults[i] != RecordFails && CanRecord(p.id, entry) {
          journal := Record(journal, p.id, entry);
        }
        i := i + 1;
      }
    }
  }

  /** Seen file by file, the scan computes the three quantified tests. */
  lemma ScanIsVerdict(roots: set<Path>, files: Files, changes: seq<FileChange>)
    requires changes != []
    requires forall k :: 0 <= k < |changes| ==>
      Allowed(roots, changes[k].path) && (IsBefore(files, changes[k]) || IsAfter(files, changes[k]))
    ensures BundleVerdict(roots, files, changes)
      == if forall k :: 0 <= k < |changes| ==> IsBefore(files, changes[k]) then AtBefore
         else if forall k :: 0 <= k < |changes| ==> IsAfter(files, changes[k]) then AtAfter
         else Mixed
  {
    assert AllKnown(roots, files, changes);
    assert AllBefore(files, changes) <==> forall k :: 0 <= k < |changes| ==> IsBefore(files, changes[k]);
    assert AllAfter(files, changes) <==> forall k :: 0 <= k < |changes| ==> IsAfter(files, changes[k]);
  }
}
