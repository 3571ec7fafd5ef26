/** The outcome of one recovery attempt in terms of bytes and paths: what is on disk, what
    the row says, and what happens; and when a whole restart reports a source change. */
module RecoveryOutcomes {
  import opened Common
  import opened Recovery
  import opened RecoveryRuns
  import opened RecoveryLimits
  import opened RecoveryServer
  import opened RecoveryJournal

  /** A page row: outside the content root, unreadable, or at bytes that are neither those
      before nor those after, it is left pending and nothing changes; at the bytes before
      it is rolled back; at the bytes after it has landed, and what lies under its cleanup
      paths goes. */
  lemma PageOutcome(root: Path, e: Entry, files: Files, faults: Faults)
    requires e.payload.Some? && e.kind != "bundle_write"
    ensures var p, (o, files') := e.payload.value, Recover(root, e, files, faults);
      var readable := root.Abs? && p.path.Abs? && root.parts <= p.path.parts && p.path !in faults.unreadable
        && forall q <- files :: q == p.path || (q.Abs? ==> !(q.parts <= p.path.parts) && !(p.path.parts <= q.parts));
      var now := if p.path in files then "sha256:" + files[p.path] else "";
      && (!readable || (now != p.beforeRevision && now != p.afterRevision) ==> o == Pending(false) && files' == files)
      && (readable && now == p.beforeRevision && now != p.afterRevision ==> o == Resolved(false, false) && files' == files)
      && (readable && now == p.afterRevision && faults.changes >= |p.cleanup|
          && (forall c <- p.cleanup :: c.Abs? && root.parts <= c.parts) ==>
            && o == Resolved(p.cleanup != [], true)
            && forall q: Path :: Lookup(files', q)
                 == if exists c <- p.cleanup :: c.Abs? && q.Abs? && c.parts <= q.parts then None else Lookup(files, q))
  {
    var p := e.payload.value;
    assert ReadPaths(e) == {p.path} && Roots(root, e) == {root};
    assert p.path in faults.unreadable <==> ReadPaths(e) * faults.unreadable != {} by {
      if p.path in faults.unreadable {
        assert p.path in ReadPaths(e) * faults.unreadable;
      }
    }
    CleanUpExactly({root}, files, p.cleanup, faults, faults.changes);
    AllowedMeansNoStray({root}, p.cleanup);
    assert p.cleanup[..|p.cleanup|] == p.cleanup;
  }

  /** A bundle row with a file outside the content root or its own directory, or with
      bytes that are neither those before nor those after: nothing happens. */
  lemma ForeignBundleIsLeft(root: Path, e: Entry, files: Files, faults: Faults, f: FileChange)
    requires e.payload.Some? && e.kind == "bundle_write" && f in e.payload.value.files
    requires !(root.Abs? && f.path.Abs? && root.parts <= f.path.parts)
      || !(e.payload.value.bundleDir.Abs? && f.path.Abs? && e.payload.value.bundleDir.parts <= f.path.parts)
      || (Lookup(files, f.path) != f.before && Lookup(files, f.path) != f.after)
      || f.path in faults.unreadable
    ensures Recover(root, e, files, faults) == (Pending(false), files)
  {
    assert Roots(root, e) == {root, e.payload.value.bundleDir};
    assert f.path in ReadPaths(e);
    assert f.path in faults.unreadable ==> f.path in ReadPaths(e) * faults.unreadable;
  }

  /** Every file of the bundle lies where it may and holds its bytes from before or its
      bytes from after. */
  ghost predicate Known(root: Path, e: Entry, files: Files)
    requires e.payload.Some?
  {
    forall f <- e.payload.value.files ::
      && Within(root, f.path) && Within(e.payload.value.bundleDir, f.path)
      && (Lookup(files, f.path) == f.before || Lookup(files, f.path) == f.after)
  }

  lemma KnownIsAllKnown(root: Path, e: Entry, files: Files)
    requires e.payload.Some? && e.kind == "bundle_write" && Known(root, e, files)
    ensures AllKnown(Roots(root, e), files, e.payload.value.files)
    ensures forall f <- e.payload.value.files :: f.path in ReadPaths(e)
  {
    assert Roots(root, e) == {root, e.payload.value.bundleDir};
  }

  /** Wholly at the bytes before: settled as rolled back, nothing is written. */
  lemma UntouchedBundle(root: Path, e: Entry, files: Files, faults: Faults)
    requires e.payload.Some? && e.kind == "bundle_write" && e.payload.value.files != [] && Known(root, e, files)
    requires Readable(e, files) && faults.unreadable == {}
    requires forall f <- e.payload.value.files :: Lookup(files, f.path) == f.before
    ensures Recover(root, e, files, faults) == (Resolved(false, false), files)
  {
    KnownIsAllKnown(root, e, files);
    assert AllBefore(files, e.payload.value.files);
  }

  /** Wholly at the bytes after: it has landed, and its cleanup paths go. */
  lemma LandedBundle(root: Path, e: Entry, files: Files, faults: Faults)
    requires e.payload.Some? && e.kind == "bundle_write" && Known(root, e, files)
    requires Readable(e, files) && faults.unreadable == {} && faults.changes >= |e.payload.value.cleanup|
    requires exists f <- e.payload.value.files :: Lookup(files, f.path) != f.before
    requires forall f <- e.payload.value.files :: Lookup(files, f.path) == f.after
    requires forall c <- e.payload.value.cleanup :: Within(root, c) && Within(e.payload.value.bundleDir, c)
    ensures var cleanup, (o, files') := e.payload.value.cleanup, Recover(root, e, files, faults);
      && o == Resolved(cleanup != [], true)
      && forall q: Path :: Lookup(files', q) == if exists c <- cleanup :: Within(c, q) then None else Lookup(files, q)
  {
    var p := e.payload.value;
    KnownIsAllKnown(root, e, files);
    assert AllAfter(files, p.files) && !AllBefore(files, p.files);
    assert Roots(root, e) == {root, p.bundleDir};
    CleanUpEffect(Roots(root, e), files, p.cleanup, faults, faults.changes);
    forall q: Path ensures Covered(p.cleanup, q) <==> exists c <- p.cleanup :: Within(c, q) {
    }
  }

  lemma ReadsAsMixed(root: Path, e: Entry, files: Files)
    requires e.payload.Some? && e.kind == "bundle_write" && Known(root, e, files) && Readable(e, files)
    requires exists f <- e.payload.value.files :: Lookup(files, f.path) != f.before
    requires exists f <- e.payload.value.files :: Lookup(files, f.path) != f.after
    ensures Classify(root, e, files) == Mixed
    ensures forall f <- e.payload.value.files :: !Blocked(files, f.path)
  {
    var fs := e.payload.value.files;
    KnownIsAllKnown(root, e, files);
    var f, g :| f in fs && Lookup(files, f.path) != f.before && g in fs && Lookup(files, g.path) != g.after;
    assert !IsBefore(files, f) && !IsAfter(files, g);
  }

  lemma AllWrittenBack(files: Files, fs: seq<FileChange>, budget: nat)
    requires Unrelated(fs) && (forall f <- fs :: !Blocked(files, f.path)) && budget >= |fs|
    ensures var (done, files') := RollBack(files, fs, budget);
      && done
      && (forall f <- fs :: Lookup(files', f.path) == f.before)
      && (forall q: Path :: (forall f <- fs :: f.path != q) ==> Lookup(files', q) == Lookup(files, q))
  {
    RollBackEffect(files, fs, budget);
    forall f <- fs ensures Lookup(RollBack(files, fs, budget).1, f.path) == f.before {
      var k :| 0 <= k < |fs| && fs[k] == f;
    }
  }

  /** A mixture: every file gets its bytes from before, and no other file changes. */
  lemma MixedBundle(root: Path, e: Entry, files: Files, faults: Faults)
    requires e.payload.Some? && e.kind == "bundle_write" && Known(root, e, files)
    requires NonNested(e) && Readable(e, files) && faults.unreadable == {} && faults.changes >= |e.payload.value.files|
    requires exists f <- e.payload.value.files :: Lookup(files, f.path) != f.before
    requires exists f <- e.payload.value.files :: Lookup(files, f.path) != f.after
    ensures var fs, (o, files') := e.payload.value.files, Recover(root, e, files, faults);
      && o == Resolved(true, false)
      && (forall f <- fs :: Lookup(files', f.path) == f.before)
      && (forall q: Path :: (forall f <- fs :: f.path != q) ==> Lookup(files', q) == Lookup(files, q))
  {
    ReadsAsMixed(root, e, files);
    AllWrittenBack(files, e.payload.value.files, faults.changes);
  }

  /** When an attempt reports a source change: a landed page once its first tree is gone,
      a landed bundle only once all are, a mixed bundle only once every file is back. */
  predicate Reports(root: Path, e: Entry, files: Files, faults: Faults)
    requires e.payload.Some?
  {
    var p := e.payload.value;
    && ReadPaths(e) * faults.unreadable == {}
    && match Classify(root, e, files)
       case AtAfter =>
         && p.cleanup != []
         && (if e.kind == "bundle_write"
             then faults.changes >= |p.cleanup| && forall c <- p.cleanup :: Within(root, c) && Within(p.bundleDir, c)
             else faults.changes > 0 && Within(root, p.cleanup[0]))
       case Mixed => Reach(files, p.files, faults.changes) == |p.files|
       case _ => false
  }

  lemma ReportsExactly(root: Path, e: Entry, files: Files, faults: Faults)
    requires e.payload.Some?
    ensures Recover(root, e, files, faults).0.changed <==> Reports(root, e, files, faults)
  {
    var p := e.payload.value;
    CleanUpExactly(Roots(root, e), files, p.cleanup, faults, faults.changes);
    AllowedMeansNoStray(Roots(root, e), p.cleanup);
    RollBackExactly(files, p.files, faults.changes);
  }

  // ----- a whole restart -----

  /** Attempt number `k` of the restart reports a change. */
  ghost predicate ReportsAt(root: Path, w: World, r: Restart, k: nat)
    requires (forall id <- r.order :: id in w.journal) && k < |r.order|
  {
    var e := w.journal[r.order[k]];
    e.Active() && Reports(root, e, FilesAt(root, w, r, k), r.faults(r.order[k]))
  }

  /** Attempt number `k` of the restart changes files without reporting it. */
  ghost predicate SilentAt(root: Path, w: World, r: Restart, k: nat)
    requires (forall id <- r.order :: id in w.journal) && k < |r.order|
  {
    var e := w.journal[r.order[k]];
    e.Active() && Silent(root, e, FilesAt(root, w, r, k), r.faults(r.order[k]))
  }

  lemma LaterFiles(root: Path, w: World, r: Restart, k: nat)
    requires (forall id <- r.order :: id in w.journal) && k < |r.order|
    ensures FilesAt(root, w, r, k + 1) == FilesAt(root, w.(files := AfterFirst(root, w, r)), r.(order := r.order[1..]), k)
  {
    assert r.order[..k+1][1..] == r.order[1..][..k] && r.order[..k+1][0] == r.order[0];
  }

  /** A restart reports a source change exactly when one of its attempts does. When it
      reports none and yet some file has changed, one of its attempts was silent. */
  lemma {:induction false} RestartReports(root: Path, w: World, r: Restart)
    requires forall id <- r.order :: id in w.journal
    ensures var (files', _, changed) := PrepareAll(root, w.journal, r.order, w.files, r.faults);
      && (changed <==> exists k: nat :: k < |r.order| && ReportsAt(root, w, r, k))
      && (files' != w.files && !changed ==> exists k: nat :: k < |r.order| && SilentAt(root, w, r, k))
    decreases |r.order|
  {
    if r.order != [] {
      var id, w1, r1 := r.order[0], w.(files := AfterFirst(root, w, r)), r.(order := r.order[1..]);
      RestartReports(root, w1, r1);
      FirstReports(root, w, r);
      LaterReports(root, w, r);
      if k: nat :| k < |r1.order| && ReportsAt(root, w1, r1, k) {
        assert ReportsAt(root, w, r, k + 1);
      }
      if k: nat :| k < |r.order| && ReportsAt(root, w, r, k) {
        assert k > 0 ==> ReportsAt(root, w1, r1, k - 1);
      }
    }
  }

  lemma FirstReports(root: Path, w: World, r: Restart)
    requires (forall id <- r.order :: id in w.journal) && r.order != []
    ensures var e := w.journal[r.order[0]];
      && (ReportsAt(root, w, r, 0) <==> e.Active() && Recover(root, e, w.files, r.faults(r.order[0])).0.changed)
      && (SilentAt(root, w, r, 0) <==> AfterFirst(root, w, r) != w.files && !ReportsAt(root, w, r, 0))
  {
    var e := w.journal[r.order[0]];
    assert r.order[..0] == [];
    if e.Active() {
      ReportsExactly(root, e, w.files, r.faults(r.order[0]));
      SilentExactly(root, e, w.files, r.faults(r.order[0]));
    }
  }

  lemma LaterReports(root: Path, w: World, r: Restart)
    requires (forall id <- r.order :: id in w.journal) && r.order != []
    ensures var w1, r1 := w.(files := AfterFirst(root, w, r)), r.(order := r.order[1..]);
      forall k: nat :: k < |r1.order| ==>
        && (ReportsAt(root, w, r, k + 1) <==> ReportsAt(root, w1, r1, k))
        && (SilentAt(root, w, r, k + 1) <==> SilentAt(root, w1, r1, k))
  {
    forall k: nat | k < |r.order[1..]|
      ensures var w1, r1 := w.(files := AfterFirst(root, w, r)), r.(order := r.order[1..]);
        && (ReportsAt(root, w, r, k + 1) <==> ReportsAt(root, w1, r1, k))
        && (SilentAt(root, w, r, k + 1) <==> SilentAt(root, w1, r1, k))
    {
      LaterFiles(root, w, r, k);
    }
  }

  // ----- which rows are touched -----

  /** A row recovery looks at: in one of two states, of one of two kinds, decodable. */
  predicate IsPending(e: Entry) {
    e.state in {"in_progress", "file_written"} && e.kind in {"content_write", "bundle_write"} && e.payload.Some?
  }

  /** Over every run of restarts: a row that changes was pending, and only its state does. */
  lemma OnlyPendingRowsMove(root: Path, w: World, rs: seq<Restart>, end: World, id: string)
    requires Reaches(root, w, rs, end) && id in w.journal
    ensures id in end.journal
    ensures end.journal[id] != w.journal[id] ==> IsPending(w.journal[id]) && end.journal[id] == w.journal[id].(state := "reconciled")
  {
    JournalFollowsVerdicts(root, w, rs, end);
  }

  /** A restart that lists no pending row changes nothing at all. */
  lemma {:induction false} IdleRestart(root: Path, w: World, r: Restart)
    requires forall id <- r.order :: id in w.journal && !IsPending(w.journal[id])
    ensures PrepareAll(root, w.journal, r.order, w.files, r.faults) == (w.files, [], false)
    ensures Step(root, w, r) == w
    decreases |r.order|
  {
    if r.order != [] {
      assert !w.journal[r.order[0]].Active();
      IdleRestart(root, w, r.(order := r.order[1..]));
    }
  }

  /** One commit, exactly: a landed row with a result needs a complete receipt, whose
      result is stored first; then the row is marked and keeps the kind it has. Either
      write may fail, and a row without an id or a kind is never marked. */
  lemma CommitsExactly(journal: Journal, results: Results, p: Prepared, fault: CommitFault)
    ensures var (journal', results') := Commit(journal, results, p, fault);
      var owes := p.landed && p.entry.payload.Some? && p.entry.payload.value.receipt.Some?
                  && p.entry.payload.value.receipt.value.result != "";
      var stores := owes && fault != RememberFails
                    && var q := p.entry.payload.value.receipt.value;
                       q.caller != "" && q.tool != "" && q.key != "" && q.requestHash != "";
      var marks := (owes ==> stores) && fault != RecordFails && p.id != "" && p.entry.kind != "";
      && results' == (if !stores then results
                      else var q := p.entry.payload.value.receipt.value;
                           results[(q.caller, q.tool, q.key) := StoredResult(q.requestHash, q.result, p.entry.updatedAt)])
      && journal' == (if !marks then journal
                      else journal[p.id := Entry(if p.id in journal then journal[p.id].kind else p.entry.kind,
                                                 "reconciled", p.entry.payload, p.entry.updatedAt)])
  {
  }
}
