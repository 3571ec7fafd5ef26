/** The files over runs of restarts: when pending rows do not meddle with one another,
    the first crash state fixes the outcome of each, and journal, idempotency table and
    disk agree with it. */
module RecoveryWorld {
  import opened Common
  import opened Recovery
  import opened RecoveryServer
  import opened RecoveryRuns
  import opened RecoveryOverlap
  import opened RecoveryJournal

  /** Well-formed rows that do not meddle with one another, retries of the same work
      excepted. Idempotency slots may be shared. */
  ghost predicate Independent(root: Path, w: World) {
    && (forall id <- Active(w) :: id != "" && NonNested(w.journal[id]) && CleanupClear(w.journal[id]))
    && (forall id <- Active(w), d <- Active(w) :: id != d ==>
          SameWork(w.journal[id], w.journal[d]) || !Meddles(root, w.journal[id], w.journal[d]))
  }

  /** The row of a create or an update. */
  predicate PageWrite(e: Entry) {
    !e.Bundle() && e.payload.Some? && e.payload.value.cleanup == [] && e.payload.value.files == []
  }

  /** Any number of pending page writes, on the same path or not, with the same key or
      not. */
  lemma PageWritesAreIndependent(root: Path, w: World)
    requires forall id <- Active(w) :: id != "" && PageWrite(w.journal[id])
    ensures Independent(root, w)
  {
    forall id <- Active(w), d <- Active(w) ensures !Meddles(root, w.journal[id], w.journal[d]) {
      PageWritesNeverMeddle(root, w.journal[id], w.journal[d]);
    }
  }

  /** Disk part of the invariant: `w0` is the state right after the first crash. Only rows
      with a verdict ever write. */
  ghost predicate DiskAgrees(root: Path, w0: World, files: Files) {
    && (forall id <- Active(w0) ::
          Progress(Classify(root, w0.journal[id], w0.files), Classify(root, w0.journal[id], files)))
    && (forall q: Path :: Untouched(root, w0, q) ==> Lookup(files, q) == Lookup(w0.files, q))
  }

  /** No row with a verdict writes at the path. */
  ghost predicate Untouched(root: Path, w0: World, q: Path) {
    forall id <- Active(w0) :: Writes(w0.journal[id], q) ==> Classify(root, w0.journal[id], w0.files) == Ambiguous
  }

  /** Reconciled rows: a landed one is wholly in place and its slot holds the result of a
      landed row, any other is wholly rolled back. Only landed rows ever add a result. */
  ghost predicate JournalAgrees(root: Path, w0: World, w: World) {
    && w.journal.Keys == w0.journal.Keys
    && (forall id <- w0.journal :: w.journal[id] == w0.journal[id] || (
          && id in Active(w0)
          && w.journal[id] == w0.journal[id].(state := "reconciled")
          && Settled(root, w0, w, id)))
    && (forall slot :: Lookup(w.results, slot) == Lookup(w0.results, slot) || Filled(root, w0, w, slot))
  }

  /** The slot holds the result of a landed row. */
  ghost predicate Filled(root: Path, w0: World, w: World, slot: (string, string, string)) {
    exists id <- Active(w0) :: StoresFor(root, w0, w, id, slot)
  }

  ghost predicate Settled(root: Path, w0: World, w: World, id: string)
    requires id in Active(w0)
  {
    var e := w0.journal[id];
    && Classify(root, e, w0.files) != Ambiguous
    && (Landed(root, w0, id) ==>
          && Classify(root, e, w.files) == AtAfter
          && (Owes(e) ==> Filled(root, w0, w, Slot(e))))
    && (!Landed(root, w0, id) ==> Classify(root, e, w.files) == AtBefore)
  }

  ghost predicate StoresFor(root: Path, w0: World, w: World, id: string, slot: (string, string, string))
    requires id in Active(w0)
  {
    var e := w0.journal[id];
    Landed(root, w0, id) && Owes(e) && Slot(e) == slot && Lookup(w.results, slot) == Some(StoredFor(e))
  }

  ghost predicate Agrees(root: Path, w0: World, w: World) {
    DiskAgrees(root, w0, w.files) && JournalAgrees(root, w0, w)
  }

  /** What the prepare loop hands to the commit loop. */
  ghost predicate Ready(root: Path, w0: World, files: Files, p: Prepared) {
    && p.id in Active(w0)
    && p.entry == w0.journal[p.id]
    && Classify(root, p.entry, w0.files) != Ambiguous
    && p.landed == Landed(root, w0, p.id)
    && Classify(root, p.entry, files) == if p.landed then AtAfter else AtBefore
  }

  /** What an attempt on one row does to the verdict on any row. */
  lemma VerdictsProgress(root: Path, w0: World, d: string, id: string, files: Files, faults: Faults)
    requires Independent(root, w0) && d in Active(w0) && id in Active(w0)
    ensures Progress(Classify(root, w0.journal[id], files),
                     Classify(root, w0.journal[id], Recover(root, w0.journal[d], files, faults).1))
  {
    if id == d || SameWork(w0.journal[id], w0.journal[d]) {
      RetryMovesAlike(root, w0.journal[id], w0.journal[d], files, faults);
    } else {
      Undisturbed(root, w0.journal[id], w0.journal[d], files, faults);
    }
  }

  /** Once an entry is at an end state, no attempt on any entry moves it. */
  lemma RecoverKeepsWorld(root: Path, w0: World, id: string, files: Files, faults: Faults)
    requires Independent(root, w0) && id in Active(w0) && DiskAgrees(root, w0, files)
    ensures var (o, files') := Recover(root, w0.journal[id], files, faults);
      && DiskAgrees(root, w0, files')
      && (o.Resolved? ==> Ready(root, w0, files', Prepared(id, w0.journal[id], o.landed)))
      && (forall p | Ready(root, w0, files, p) :: Ready(root, w0, files', p))
      && ((Uninterrupted(w0.journal[id], faults) && Classify(root, w0.journal[id], w0.files) != Ambiguous
           && (Landed(root, w0, id) ==> CleanupAllowed(root, w0.journal[id]))) ==> o.Resolved?)
  {
    var e := w0.journal[id];
    RecoverStep(root, e, files, faults);
    var files' := Recover(root, e, files, faults).1;
    forall x <- Active(w0)
      ensures Progress(Classify(root, w0.journal[x], files), Classify(root, w0.journal[x], files'))
      ensures Progress(Classify(root, w0.journal[x], w0.files), Classify(root, w0.journal[x], files'))
    {
      VerdictsProgress(root, w0, id, x, files, faults);
    }
  }

  lemma {:induction false} PrepareKeepsWorld(root: Path, w0: World, journal: Journal, order: seq<string>, files: Files, faults: string -> Faults)
    requires Independent(root, w0) && DiskAgrees(root, w0, files)
    requires forall id <- order :: id in journal
    requires forall id <- journal :: journal[id].Active() ==> id in Active(w0) && journal[id] == w0.journal[id]
    ensures var (files', ps, _) := PrepareAll(root, journal, order, files, faults);
      && DiskAgrees(root, w0, files')
      && (forall p <- ps :: Ready(root, w0, files', p))
      && (forall p | Ready(root, w0, files, p) :: Ready(root, w0, files', p))
      && (forall id <- order :: Settles(root, w0, journal, id, faults) ==> exists p <- ps :: p.id == id)
    decreases |order|
  {
    if order != [] {
      var id, e := order[0], journal[order[0]];
      if e.Active() {
        var (o, files1) := Recover(root, e, files, faults(id));
        RecoverKeepsWorld(root, w0, id, files, faults(id));
        PrepareKeepsWorld(root, w0, journal, order[1..], files1, faults);
        var all, rest := PrepareAll(root, journal, order, files, faults), PrepareAll(root, journal, order[1..], files1, faults);
        assert forall p <- rest.1 :: p in all.1;
        forall id' <- order | Settles(root, w0, journal, id', faults)
          ensures exists p <- all.1 :: p.id == id'
        {
          if o.Resolved? && id' == id {
            assert all.1[0] == Prepared(id, e, o.landed);
          } else if id' in order[1..] {
            var p :| p in rest.1 && p.id == id';
            assert p in all.1;
          }
        }
      } else {
        PrepareKeepsWorld(root, w0, journal, order[1..], files, faults);
      }
      assert forall id' <- order :: id' == id || id' in order[1..];
    }
  }

  /** What an undisturbed restart needs in order to settle a row. */
  ghost predicate Settles(root: Path, w0: World, journal: Journal, id: string, faults: string -> Faults) {
    && id in Active(w0) && id in journal && journal[id].Active()
    && Classify(root, w0.journal[id], w0.files) != Ambiguous
    && (Landed(root, w0, id) ==> CleanupAllowed(root, w0.journal[id]))
    && Uninterrupted(w0.journal[id], faults(id))
  }

  /** A settled row stays settled while its slot holds a landed row's result. */
  lemma SettledFrame(root: Path, w0: World, w: World, w': World, id: string)
    requires id in Active(w0) && Settled(root, w0, w, id) && w'.files == w.files
    requires forall slot | Filled(root, w0, w, slot) :: Filled(root, w0, w', slot)
    ensures Settled(root, w0, w', id)
  {
  }

  /** A commit keeps every filled slot filled, and fills the slot of the row it marks. */
  lemma CommitKeepsFilled(root: Path, w0: World, w: World, p: Prepared, fault: CommitFault, slot: (string, string, string))
    requires p.id in w.journal && Ready(root, w0, w.files, p)
    ensures var (journal', results') := Commit(w.journal, w.results, p, fault);
      var w' := World(w.files, journal', results');
      && (Filled(root, w0, w, slot) ==> Filled(root, w0, w', slot))
      && (Lookup(results', slot) != Lookup(w.results, slot) ==> Filled(root, w0, w', slot))
      && (journal' != w.journal && p.landed && Owes(p.entry) && Slot(p.entry) == slot ==> Filled(root, w0, w', slot))
  {
    CommitEffect(w.journal, w.results, p, fault);
    var (journal', results') := Commit(w.journal, w.results, p, fault);
    var w' := World(w.files, journal', results');
    if p.landed && Owes(p.entry) && Slot(p.entry) == slot && Lookup(results', slot) == Some(StoredFor(p.entry)) {
      assert StoresFor(root, w0, w', p.id, slot);
    } else if Filled(root, w0, w, slot) {
      var id :| id in Active(w0) && StoresFor(root, w0, w, id, slot);
      assert StoresFor(root, w0, w', id, slot);
    }
  }

  lemma CommitKeepsJournal(root: Path, w0: World, w: World, p: Prepared, fault: CommitFault, id: string)
    requires Independent(root, w0) && JournalAgrees(root, w0, w) && Ready(root, w0, w.files, p) && id in w0.journal
    ensures var (journal', results') := Commit(w.journal, w.results, p, fault);
      && id in journal'
      && (journal'[id] == w0.journal[id] || (
            && id in Active(w0) && journal'[id] == w0.journal[id].(state := "reconciled")
            && Settled(root, w0, World(w.files, journal', results'), id)))
  {
    CommitEffect(w.journal, w.results, p, fault);
    var (journal', results') := Commit(w.journal, w.results, p, fault);
    var w' := World(w.files, journal', results');
    forall slot ensures Filled(root, w0, w, slot) ==> Filled(root, w0, w', slot) {
      CommitKeepsFilled(root, w0, w, p, fault, slot);
    }
    if journal'[id] != w0.journal[id] {
      if journal'[id] == w.journal[id] {
        SettledFrame(root, w0, w, w', id);
      } else {
        assert id == p.id && w.journal[id].kind == w0.journal[id].kind;
        if p.landed && Owes(p.entry) {
          CommitKeepsFilled(root, w0, w, p, fault, Slot(p.entry));
        }
      }
    }
  }

  lemma CommitKeepsWorld(root: Path, w0: World, w: World, p: Prepared, fault: CommitFault)
    requires Independent(root, w0) && Agrees(root, w0, w) && Ready(root, w0, w.files, p)
    ensures var (journal', results') := Commit(w.journal, w.results, p, fault);
      Agrees(root, w0, World(w.files, journal', results'))
  {
    var (journal', results') := Commit(w.journal, w.results, p, fault);
    var w' := World(w.files, journal', results');
    CommitEffect(w.journal, w.results, p, fault);
    forall id <- w0.journal
      ensures w'.journal[id] == w0.journal[id] || (
        id in Active(w0) && w'.journal[id] == w0.journal[id].(state := "reconciled") && Settled(root, w0, w', id))
    {
      CommitKeepsJournal(root, w0, w, p, fault, id);
    }
    forall slot | Lookup(w'.results, slot) != Lookup(w0.results, slot) ensures Filled(root, w0, w', slot) {
      CommitKeepsFilled(root, w0, w, p, fault, slot);
    }
  }

  lemma {:induction false} CommitAllKeepsWorld(root: Path, w0: World, w: World, ps: seq<Prepared>, faults: seq<CommitFault>)
    requires Independent(root, w0) && Agrees(root, w0, w)
    requires forall p <- ps :: Ready(root, w0, w.files, p)
    ensures var (journal', results') := CommitAll(w.journal, w.results, ps, faults);
      Agrees(root, w0, World(w.files, journal', results'))
    decreases |ps|
  {
    if ps != [] && faults != [] {
      CommitKeepsWorld(root, w0, w, ps[0], faults[0]);
      var (j, r) := Commit(w.journal, w.results, ps[0], faults[0]);
      CommitAllKeepsWorld(root, w0, World(w.files, j, r), ps[1..], faults[1..]);
    }
  }

  lemma StepKeepsWorld(root: Path, w0: World, w: World, r: Restart)
    requires Independent(root, w0) && Agrees(root, w0, w)
    requires forall id <- r.order :: id in w.journal
    ensures Agrees(root, w0, Step(root, w, r))
  {
    PrepareKeepsWorld(root, w0, w.journal, r.order, w.files, r.faults);
    var (files', ps, _) := PrepareAll(root, w.journal, r.order, w.files, r.faults);
    var w1 := World(files', w.journal, w.results);
    assert Agrees(root, w0, w1) by {
      forall slot | Filled(root, w0, w, slot) ensures Filled(root, w0, w1, slot) {
        var id :| id in Active(w0) && StoresFor(root, w0, w, id, slot);
        assert StoresFor(root, w0, w1, id, slot);
      }
      forall id <- w0.journal | w.journal[id] != w0.journal[id] ensures Settled(root, w0, w1, id) {
        var e := w0.journal[id];
        assert Settled(root, w0, w, id);
        assert Ready(root, w0, w.files, Prepared(id, e, Landed(root, w0, id)));
        assert Ready(root, w0, files', Prepared(id, e, Landed(root, w0, id)));
      }
    }
    CommitAllKeepsWorld(root, w0, w1, ps, r.commits);
  }

  /** In every state reachable by restarts, crashes and failing writes, journal,
      idempotency table and disk agree with the first crash state. */
  lemma {:induction false} JournalAgreesWithDisk(root: Path, w0: World, w: World, rs: seq<Restart>, end: World)
    requires Independent(root, w0) && Agrees(root, w0, w) && Reaches(root, w, rs, end)
    ensures Agrees(root, w0, end)
    decreases |rs|
  {
    if rs != [] {
      StepKeepsWorld(root, w0, w, rs[0]);
      JournalAgreesWithDisk(root, w0, Step(root, w, rs[0]), rs[1..], end);
    }
  }

  /** The first crash state starts such a run. */
  lemma FirstCrashAgrees(root: Path, w0: World)
    ensures Agrees(root, w0, w0)
  {
    forall id <- Active(w0)
      ensures Progress(Classify(root, w0.journal[id], w0.files), Classify(root, w0.journal[id], w0.files))
    {
    }
  }

  /** A slot that no landed row claims never changes: no mutation that rolled back or
      stayed ambiguous gets a result. */
  lemma NoResultWithoutLanding(root: Path, w0: World, rs: seq<Restart>, end: World, slot: (string, string, string))
    requires Independent(root, w0) && Reaches(root, w0, rs, end)
    requires forall id <- Active(w0) :: Owes(w0.journal[id]) && Slot(w0.journal[id]) == slot ==> !Landed(root, w0, id)
    ensures Lookup(end.results, slot) == Lookup(w0.results, slot)
  {
    FirstCrashAgrees(root, w0);
    JournalAgreesWithDisk(root, w0, w0, rs, end);
  }

  /** Foreign bytes, an unreadable path or one outside its roots: the row stays as it is,
      and every path it reads or cleans keeps its bytes unless a row with a verdict writes
      there. */
  lemma AmbiguousStaysPending(root: Path, w0: World, rs: seq<Restart>, end: World, id: string)
    requires Independent(root, w0) && Reaches(root, w0, rs, end)
    requires id in Active(w0) && Classify(root, w0.journal[id], w0.files) == Ambiguous
    ensures id in end.journal && end.journal[id] == w0.journal[id]
    ensures Classify(root, w0.journal[id], end.files) == Ambiguous
    ensures forall q :: (q in ReadPaths(w0.journal[id]) || Writes(w0.journal[id], q)) && Untouched(root, w0, q) ==>
      Lookup(end.files, q) == Lookup(w0.files, q)
  {
    FirstCrashAgrees(root, w0);
    JournalAgreesWithDisk(root, w0, w0, rs, end);
  }

  /** A bundle row marked reconciled is wholly on disk and its slot holds the result of a
      landed row, its own unless another landed row shares the slot; or it is wholly
      rolled back. */
  lemma ReconciledBundleIsWhole(root: Path, w0: World, rs: seq<Restart>, end: World, id: string)
    requires Independent(root, w0) && Reaches(root, w0, rs, end)
    requires id in Active(w0) && w0.journal[id].Bundle()
    requires id in end.journal && end.journal[id].state == "reconciled"
    ensures var e, changes := w0.journal[id], w0.journal[id].payload.value.files;
      if AllAfter(w0.files, changes) && !AllBefore(w0.files, changes)
      then && AllAfter(end.files, changes)
           && (Owes(e) ==> Filled(root, w0, end, Slot(e)))
           && (Owes(e) && OwnsSlot(root, w0, id) ==> Lookup(end.results, Slot(e)) == Some(StoredFor(e)))
      else AllBefore(end.files, changes)
  {
    FirstCrashAgrees(root, w0);
    JournalAgreesWithDisk(root, w0, w0, rs, end);
  }

  ghost predicate OwnsSlot(root: Path, w0: World, id: string)
    requires id in Active(w0) && Owes(w0.journal[id])
  {
    forall d <- Active(w0) :: d != id && Owes(w0.journal[d]) && Slot(w0.journal[d]) == Slot(w0.journal[id]) ==> !Landed(root, w0, d)
  }

  // ----- convergence -----

  lemma {:induction false} CommitAllSettles(journal: Journal, results: Results, ps: seq<Prepared>, faults: seq<CommitFault>, id: string)
    requires |faults| >= |ps| && forall f <- faults :: f == NoFault
    requires forall p <- ps :: p.id in journal && CanRecord(p.id, p.entry)
    requires forall p <- ps | p.id == id :: p.landed && Owes(p.entry) ==> p.entry.payload.value.receipt.value.Storable()
    ensures var journal' := CommitAll(journal, results, ps, faults).0;
      && journal'.Keys == journal.Keys
      && ((exists p <- ps :: p.id == id) || (id in journal && journal[id].state == "reconciled") ==>
            id in journal' && journal'[id].state == "reconciled")
    decreases |ps|
  {
    if ps != [] {
      assert ps[0] in ps && faults[0] in faults;
      assert forall p <- ps[1..] :: p in ps;
      assert forall f <- faults[1..] :: f in faults;
      CommitEffect(journal, results, ps[0], faults[0]);
      var (j, r) := Commit(journal, results, ps[0], faults[0]);
      if ps[0].id == id {
        assert j[id].state == "reconciled";
      }
      CommitAllSettles(j, r, ps[1..], faults[1..], id);
      assert forall p <- ps :: p == ps[0] || p in ps[1..];
    }
  }

  /** After any number of crashed restarts, one undisturbed restart that lists every
      pending row reconciles each row whose verdict is known, whose cleanup paths stay
      inside its roots and whose result can be stored. */
  lemma UndisturbedRestartSettles(root: Path, w0: World, rs: seq<Restart>, w: World, r: Restart, id: string)
    requires Independent(root, w0) && Reaches(root, w0, rs, w)
    requires forall i <- r.order :: i in w.journal
    requires forall i <- Active(w) :: i in r.order
    requires forall i <- Active(w) :: Uninterrupted(w.journal[i], r.faults(i))
    requires |r.commits| >= |r.order| && forall f <- r.commits :: f == NoFault
    requires id in Active(w0) && Classify(root, w0.journal[id], w0.files) != Ambiguous
    requires Landed(root, w0, id) ==> CleanupAllowed(root, w0.journal[id])
    requires Landed(root, w0, id) && Owes(w0.journal[id]) ==> w0.journal[id].payload.value.receipt.value.Storable()
    ensures id in Step(root, w, r).journal && Step(root, w, r).journal[id].state == "reconciled"
    ensures Settled(root, w0, Step(root, w, r), id)
  {
    FirstCrashAgrees(root, w0);
    JournalAgreesWithDisk(root, w0, w0, rs, w);
    StepKeepsWorld(root, w0, w, r);
    UndisturbedRestartCommits(root, w0, w, r, id);
  }

  lemma UndisturbedRestartCommits(root: Path, w0: World, w: World, r: Restart, id: string)
    requires Independent(root, w0) && Agrees(root, w0, w)
    requires forall i <- r.order :: i in w.journal
    requires id in Active(w) ==> id in r.order && Uninterrupted(w.journal[id], r.faults(id))
    requires |r.commits| >= |r.order| && forall f <- r.commits :: f == NoFault
    requires id in Active(w0) && Classify(root, w0.journal[id], w0.files) != Ambiguous
    requires Landed(root, w0, id) ==> CleanupAllowed(root, w0.journal[id])
    requires Landed(root, w0, id) && Owes(w0.journal[id]) ==> w0.journal[id].payload.value.receipt.value.Storable()
    ensures id in Step(root, w, r).journal && Step(root, w, r).journal[id].state == "reconciled"
  {
    var ps := PrepareAll(root, w.journal, r.order, w.files, r.faults).1;
    PreparedCanCommit(root, w0, w, r, id);
    PreparedIsShort(root, w.journal, r.order, w.files, r.faults);
    CommitAllSettles(w.journal, w.results, ps, r.commits, id);
  }

  /** What the prepare loop hands over can be recorded, and includes the row. */
  lemma PreparedCanCommit(root: Path, w0: World, w: World, r: Restart, id: string)
    requires Independent(root, w0) && Agrees(root, w0, w) && forall i <- r.order :: i in w.journal
    requires id in Active(w0) && Classify(root, w0.journal[id], w0.files) != Ambiguous
    requires Landed(root, w0, id) ==> CleanupAllowed(root, w0.journal[id])
    requires id in Active(w) ==> id in r.order && Uninterrupted(w.journal[id], r.faults(id))
    ensures var ps := PrepareAll(root, w.journal, r.order, w.files, r.faults).1;
      && (forall p <- ps :: p.id in w.journal && CanRecord(p.id, p.entry))
      && (forall p <- ps | p.id == id :: p.entry == w0.journal[id] && p.landed == Landed(root, w0, id))
      && (id in Active(w) ==> exists p <- ps :: p.id == id)
  {
    PrepareKeepsWorld(root, w0, w.journal, r.order, w.files, r.faults);
    assert id in Active(w) ==> Settles(root, w0, w.journal, id, r.faults);
  }

  lemma {:induction false} PreparedIsShort(root: Path, journal: Journal, order: seq<string>, files: Files, faults: string -> Faults)
    requires forall id <- order :: id in journal
    ensures |PrepareAll(root, journal, order, files, faults).1| <= |order|
    decreases |order|
  {
    if order != [] {
      var e := journal[order[0]];
      var files' := if e.Active() then Recover(root, e, files, faults(order[0])).1 else files;
      PreparedIsShort(root, journal, order[1..], files', faults);
    }
  }
}
