/** The recovery state over runs of restarts: which rows are marked and which results
    are stored, whatever rows are pending; and what becomes of the files when pending
    rows do not meddle with one another. */
module RecoveryJournal {
  import opened Common
  import opened Recovery
  import opened RecoveryServer
  import opened RecoveryRuns
  import opened RecoveryOverlap

  datatype World = World(files: Files, journal: Journal, results: Results)

  /** One start of the server: the rows listed, the faults of each, and how far the
      commit loop gets (nowhere, when the process dies while preparing). */
  datatype Restart = Restart(order: seq<string>, faults: string -> Faults, commits: seq<CommitFault>)

  function Step(root: Path, w: World, r: Restart): World
    requires forall id <- r.order :: id in w.journal
  {
    var (files', ps, _) := PrepareAll(root, w.journal, r.order, w.files, r.faults);
    var (journal', results') := CommitAll(w.journal, w.results, ps, r.commits);
    World(files', journal', results')
  }

  function Active(w: World): set<string> {
    set id <- w.journal | w.journal[id].Active()
  }

  predicate Landed(root: Path, w: World, id: string)
    requires id in Active(w)
  {
    Classify(root, w.journal[id], w.files) == AtAfter
  }

  function Slot(e: Entry): (string, string, string)
    requires Owes(e)
  {
    e.payload.value.receipt.value.Slot()
  }

  /** Committing one row changes at most that row and its own slot. */
  lemma CommitEffect(journal: Journal, results: Results, p: Prepared, fault: CommitFault)
    requires p.id in journal
    ensures var (journal', results') := Commit(journal, results, p, fault);
      && journal'.Keys == journal.Keys
      && (forall id <- journal :: id != p.id ==> journal'[id] == journal[id])
      && (journal' == journal || (
            && journal'[p.id] == p.entry.(state := "reconciled", kind := journal[p.id].kind)
            && (p.landed && Owes(p.entry) ==> Lookup(results', Slot(p.entry)) == Some(StoredFor(p.entry)))))
      && (results' == results || (p.landed && Owes(p.entry) && results' == results[Slot(p.entry) := StoredFor(p.entry)]))
  {
  }

  // ----- what needs no assumption: verdicts, results and the journal -----

  /** The files that attempt number `k` of a restart finds. */
  function FilesAt(root: Path, w: World, r: Restart, k: nat): Files
    requires (forall id <- r.order :: id in w.journal) && k <= |r.order|
  {
    PrepareAll(root, w.journal, r.order[..k], w.files, r.faults).0
  }

  /** Attempt number `k` of the restart is on row `id` and settles it. */
  predicate AttemptAt(root: Path, w: World, r: Restart, k: nat, id: string, landed: bool)
    requires (forall id <- r.order :: id in w.journal) && k < |r.order|
  {
    && r.order[k] == id && w.journal[id].Active()
    && var o := Recover(root, w.journal[id], FilesAt(root, w, r, k), r.faults(id)).0;
       o.Resolved? && o.landed == landed
  }

  /** The restart settles row `id`, as landed or as rolled back. */
  ghost predicate Attempted(root: Path, w: World, r: Restart, id: string, landed: bool)
    requires forall id <- r.order :: id in w.journal
  {
    exists k: nat :: k < |r.order| && AttemptAt(root, w, r, k, id, landed)
  }

  /** What an attempt has seen when it settles its row. */
  lemma AttemptMeans(root: Path, w: World, r: Restart, k: nat, id: string, landed: bool)
    requires (forall id <- r.order :: id in w.journal) && k < |r.order| && AttemptAt(root, w, r, k, id, landed)
    ensures var v := Classify(root, w.journal[id], FilesAt(root, w, r, k));
      if landed then v == AtAfter else v in {AtBefore, Mixed}
  {
  }

  /** The files once the first row of the list has been attempted. */
  function AfterFirst(root: Path, w: World, r: Restart): Files
    requires (forall id <- r.order :: id in w.journal) && r.order != []
  {
    var id := r.order[0];
    if w.journal[id].Active() then Recover(root, w.journal[id], w.files, r.faults(id)).1 else w.files
  }

  lemma LaterAttempt(root: Path, w: World, r: Restart, k: nat, id: string, landed: bool)
    requires (forall i <- r.order :: i in w.journal) && k + 1 < |r.order|
    requires AttemptAt(root, w.(files := AfterFirst(root, w, r)), r.(order := r.order[1..]), k, id, landed)
    ensures AttemptAt(root, w, r, k + 1, id, landed)
  {
    assert r.order[..k+1][1..] == r.order[1..][..k] && r.order[..k+1][0] == r.order[0];
  }

  lemma {:induction false} PreparedWereAttempted(root: Path, w: World, r: Restart, p: Prepared)
    requires forall id <- r.order :: id in w.journal
    requires p in PrepareAll(root, w.journal, r.order, w.files, r.faults).1
    ensures p.id in w.journal && p.entry == w.journal[p.id] && p.entry.Active() && Attempted(root, w, r, p.id, p.landed)
    decreases |r.order|
  {
    var id, e := r.order[0], w.journal[r.order[0]];
    if e.Active() && Recover(root, e, w.files, r.faults(id)).0.Resolved?
       && p == Prepared(id, e, Recover(root, e, w.files, r.faults(id)).0.landed) {
      assert r.order[..0] == [];
      assert AttemptAt(root, w, r, 0, id, p.landed);
    } else {
      var w1, r1 := w.(files := AfterFirst(root, w, r)), r.(order := r.order[1..]);
      PreparedWereAttempted(root, w1, r1, p);
      var k: nat :| k < |r1.order| && AttemptAt(root, w1, r1, k, p.id, p.landed);
      LaterAttempt(root, w, r, k, p.id, p.landed);
    }
  }

  /** The slot holds the result of one of the landed rows. */
  ghost predicate FilledBy(ps: seq<Prepared>, results: Results, slot: (string, string, string)) {
    exists p <- ps :: p.landed && Owes(p.entry) && Slot(p.entry) == slot && Lookup(results, slot) == Some(StoredFor(p.entry))
  }

  /** The row has been marked on behalf of one of the prepared rows. */
  ghost predicate MarkedBy(ps: seq<Prepared>, journal: Journal, journal': Journal, results': Results, id: string)
    requires id in journal && id in journal'
  {
    exists p <- ps ::
      && p.id == id && journal'[id] == p.entry.(state := "reconciled", kind := journal[id].kind)
      && (p.landed && Owes(p.entry) ==> FilledBy(ps, results', Slot(p.entry)))
  }

  lemma {:induction false} CommitAllFollows(journal: Journal, results: Results, ps: seq<Prepared>, faults: seq<CommitFault>)
    requires forall p <- ps :: p.id in journal
    ensures var (journal', results') := CommitAll(journal, results, ps, faults);
      && journal'.Keys == journal.Keys
      && (forall id <- journal :: journal'[id] == journal[id] || MarkedBy(ps, journal, journal', results', id))
      && (forall slot :: Lookup(results', slot) == Lookup(results, slot) || FilledBy(ps, results', slot))
    decreases |ps|
  {
    if ps != [] && faults != [] {
      var p, rest := ps[0], ps[1..];
      CommitEffect(journal, results, p, faults[0]);
      var (j, s) := Commit(journal, results, p, faults[0]);
      CommitAllFollows(j, s, rest, faults[1..]);
      var (journal', results') := CommitAll(j, s, rest, faults[1..]);
      assert forall x <- rest :: x in ps;
      forall slot | FilledBy(rest, results', slot) ensures FilledBy(ps, results', slot) {
      }
      forall slot ensures Lookup(results', slot) == Lookup(results, slot) || FilledBy(ps, results', slot) {
        if Lookup(results', slot) == Lookup(s, slot) && Lookup(s, slot) != Lookup(results, slot) {
          assert p in ps && Slot(p.entry) == slot;
        }
      }
      forall id <- journal ensures journal'[id] == journal[id] || MarkedBy(ps, journal, journal', results', id) {
        if journal'[id] != j[id] {
          var q :| q in rest && q.id == id && journal'[id] == q.entry.(state := "reconciled", kind := j[id].kind)
            && (q.landed && Owes(q.entry) ==> FilledBy(rest, results', Slot(q.entry)));
          assert q in ps && j[id].kind == journal[id].kind;
        } else if j[id] != journal[id] {
          assert p in ps && p.id == id;
          if p.landed && Owes(p.entry) && Lookup(results', Slot(p.entry)) == Lookup(s, Slot(p.entry)) {
            assert FilledBy(ps, results', Slot(p.entry));
          }
        }
      }
    }
  }

  /** The slot holds the result of a row that this restart found landed. */
  ghost predicate Filled(root: Path, w: World, r: Restart, results: Results, slot: (string, string, string))
    requires forall id <- r.order :: id in w.journal
  {
    exists id <- w.journal ::
      Attempted(root, w, r, id, true) && Owes(w.journal[id]) && Slot(w.journal[id]) == slot
      && Lookup(results, slot) == Some(StoredFor(w.journal[id]))
  }

  /** One restart, over any rows whatever: a row is marked only on the verdict of its own
      attempt, a landed row's slot then holds the result of a landed row, and no slot
      gains anything else. */
  lemma RestartFollowsVerdicts(root: Path, w: World, r: Restart)
    requires forall id <- r.order :: id in w.journal
    ensures var w' := Step(root, w, r);
      && w'.journal.Keys == w.journal.Keys
      && (forall id <- w.journal :: w'.journal[id] == w.journal[id] || Marked(root, w, r, w', id))
      && (forall slot :: Lookup(w'.results, slot) == Lookup(w.results, slot) || Filled(root, w, r, w'.results, slot))
  {
    var ps := PrepareAll(root, w.journal, r.order, w.files, r.faults).1;
    forall p <- ps ensures p.id in w.journal && p.entry == w.journal[p.id] && p.entry.Active() && Attempted(root, w, r, p.id, p.landed) {
      PreparedWereAttempted(root, w, r, p);
    }
    CommitAllFollows(w.journal, w.results, ps, r.commits);
    var w' := Step(root, w, r);
    forall slot | FilledBy(ps, w'.results, slot) ensures Filled(root, w, r, w'.results, slot) {
      var p :| p in ps && p.landed && Owes(p.entry) && Slot(p.entry) == slot && Lookup(w'.results, slot) == Some(StoredFor(p.entry));
      assert p.id in w.journal;
    }
    forall id <- w.journal | w'.journal[id] != w.journal[id] ensures Marked(root, w, r, w', id) {
      var p :| p in ps && p.id == id && w'.journal[id] == p.entry.(state := "reconciled", kind := w.journal[id].kind)
        && (p.landed && Owes(p.entry) ==> FilledBy(ps, w'.results, Slot(p.entry)));
      assert Attempted(root, w, r, id, p.landed);
    }
  }

  ghost predicate Marked(root: Path, w: World, r: Restart, w': World, id: string)
    requires (forall id <- r.order :: id in w.journal) && id in w.journal && id in w'.journal
  {
    && w.journal[id].Active() && w'.journal[id] == w.journal[id].(state := "reconciled")
    && exists landed :: Attempted(root, w, r, id, landed)
         && (landed && Owes(w.journal[id]) ==> Filled(root, w, r, w'.results, Slot(w.journal[id])))
  }

  ghost predicate Reaches(root: Path, w: World, rs: seq<Restart>, end: World)
    decreases |rs|
  {
    if rs == [] then end == w
    else (forall id <- rs[0].order :: id in w.journal) && Reaches(root, Step(root, w, rs[0]), rs[1..], end)
  }

  /** Some restart of the run settles row `id`. */
  ghost predicate EverAttempted(root: Path, w: World, rs: seq<Restart>, id: string, landed: bool)
    decreases |rs|
  {
    && rs != [] && (forall i <- rs[0].order :: i in w.journal)
    && (Attempted(root, w, rs[0], id, landed) || EverAttempted(root, Step(root, w, rs[0]), rs[1..], id, landed))
  }

  ghost predicate EverFilled(root: Path, w: World, rs: seq<Restart>, end: World, slot: (string, string, string)) {
    exists id <- Active(w) ::
      EverAttempted(root, w, rs, id, true) && Owes(w.journal[id]) && Slot(w.journal[id]) == slot
      && Lookup(end.results, slot) == Some(StoredFor(w.journal[id]))
  }

  ghost predicate EverMarked(root: Path, w: World, rs: seq<Restart>, end: World, id: string)
    requires id in w.journal && id in end.journal
  {
    && w.journal[id].Active() && end.journal[id] == w.journal[id].(state := "reconciled")
    && exists landed :: EverAttempted(root, w, rs, id, landed)
         && (landed && Owes(w.journal[id]) ==> EverFilled(root, w, rs, end, Slot(w.journal[id])))
  }

  lemma AttemptedIsActive(root: Path, w: World, r: Restart, id: string, landed: bool)
    requires (forall i <- r.order :: i in w.journal) && Attempted(root, w, r, id, landed)
    ensures id in Active(w)
  {
    var k: nat :| k < |r.order| && AttemptAt(root, w, r, k, id, landed);
    assert id in r.order;
  }

  lemma FilledIsEver(root: Path, w: World, rs: seq<Restart>, mid: World, end: World, slot: (string, string, string))
    requires rs != [] && (forall i <- rs[0].order :: i in w.journal) && Filled(root, w, rs[0], mid.results, slot)
    requires Lookup(end.results, slot) == Lookup(mid.results, slot)
    ensures EverFilled(root, w, rs, end, slot)
  {
    var id :| id in w.journal && Attempted(root, w, rs[0], id, true) && Owes(w.journal[id]) && Slot(w.journal[id]) == slot
      && Lookup(mid.results, slot) == Some(StoredFor(w.journal[id]));
    AttemptedIsActive(root, w, rs[0], id, true);
    assert EverAttempted(root, w, rs, id, true);
  }

  lemma LaterFilled(root: Path, w: World, rs: seq<Restart>, end: World, slot: (string, string, string))
    requires rs != [] && (forall i <- rs[0].order :: i in w.journal)
    requires EverFilled(root, Step(root, w, rs[0]), rs[1..], end, slot)
    ensures EverFilled(root, w, rs, end, slot)
  {
    var w1 := Step(root, w, rs[0]);
    RestartFollowsVerdicts(root, w, rs[0]);
    var id :| id in Active(w1) && EverAttempted(root, w1, rs[1..], id, true) && Owes(w1.journal[id]) && Slot(w1.journal[id]) == slot
      && Lookup(end.results, slot) == Some(StoredFor(w1.journal[id]));
    assert w1.journal[id] == w.journal[id] && id in Active(w);
    assert EverAttempted(root, w, rs, id, true);
  }

  /** Over any run of restarts and any rows, related or not: a row is marked only after an
      attempt of its own has settled it, a landed row's slot holds a landed row's result
      from then on, and no slot ever gains anything else. */
  lemma {:induction false} JournalFollowsVerdicts(root: Path, w: World, rs: seq<Restart>, end: World)
    requires Reaches(root, w, rs, end)
    ensures end.journal.Keys == w.journal.Keys
    ensures forall id <- w.journal :: end.journal[id] == w.journal[id] || EverMarked(root, w, rs, end, id)
    ensures forall slot :: Lookup(end.results, slot) == Lookup(w.results, slot) || EverFilled(root, w, rs, end, slot)
    decreases |rs|
  {
    if rs != [] {
      var w1 := Step(root, w, rs[0]);
      RestartFollowsVerdicts(root, w, rs[0]);
      JournalFollowsVerdicts(root, w1, rs[1..], end);
      forall slot ensures Lookup(end.results, slot) == Lookup(w.results, slot) || EverFilled(root, w, rs, end, slot) {
        SlotFollows(root, w, rs, end, slot);
      }
      forall id <- w.journal | end.journal[id] != w.journal[id] ensures EverMarked(root, w, rs, end, id) {
        RowFollows(root, w, rs, end, id);
      }
    }
  }

  lemma SlotFollows(root: Path, w: World, rs: seq<Restart>, end: World, slot: (string, string, string))
    requires rs != [] && (forall i <- rs[0].order :: i in w.journal)
    requires var w1 := Step(root, w, rs[0]);
      Lookup(end.results, slot) == Lookup(w1.results, slot) || EverFilled(root, w1, rs[1..], end, slot)
    ensures Lookup(end.results, slot) == Lookup(w.results, slot) || EverFilled(root, w, rs, end, slot)
  {
    var w1 := Step(root, w, rs[0]);
    RestartFollowsVerdicts(root, w, rs[0]);
    if EverFilled(root, w1, rs[1..], end, slot) {
      LaterFilled(root, w, rs, end, slot);
    } else if Lookup(w1.results, slot) != Lookup(w.results, slot) {
      FilledIsEver(root, w, rs, w1, end, slot);
    }
  }

  lemma RowFollows(root: Path, w: World, rs: seq<Restart>, end: World, id: string)
    requires rs != [] && (forall i <- rs[0].order :: i in w.journal)
    requires id in w.journal && id in Step(root, w, rs[0]).journal && id in end.journal && end.journal[id] != w.journal[id]
    requires var w1 := Step(root, w, rs[0]);
      end.journal[id] == w1.journal[id] || EverMarked(root, w1, rs[1..], end, id)
    requires var w1 := Step(root, w, rs[0]);
      forall slot :: Lookup(end.results, slot) == Lookup(w1.results, slot) || EverFilled(root, w1, rs[1..], end, slot)
    ensures EverMarked(root, w, rs, end, id)
  {
    var w1 := Step(root, w, rs[0]);
    RestartFollowsVerdicts(root, w, rs[0]);
    if w1.journal[id] == w.journal[id] {
      var landed :| EverAttempted(root, w1, rs[1..], id, landed)
        && (landed && Owes(w1.journal[id]) ==> EverFilled(root, w1, rs[1..], end, Slot(w1.journal[id])));
      assert EverAttempted(root, w, rs, id, landed);
      if landed && Owes(w.journal[id]) {
        LaterFilled(root, w, rs, end, Slot(w.journal[id]));
      }
    } else {
      var landed :| Attempted(root, w, rs[0], id, landed)
        && (landed && Owes(w.journal[id]) ==> Filled(root, w, rs[0], w1.results, Slot(w.journal[id])));
      assert EverAttempted(root, w, rs, id, landed);
      if landed && Owes(w.journal[id]) {
        var slot := Slot(w.journal[id]);
        if EverFilled(root, w1, rs[1..], end, slot) {
          LaterFilled(root, w, rs, end, slot);
        } else {
          FilledIsEver(root, w, rs, w1, end, slot);
        }
      }
    }
  }
}
