/** Exactly which files one recovery attempt changes, and from that exactly when it
    removes files of an entry that stays pending, and when it changes files without
    reporting it. */
module RecoveryLimits {
  import opened Common
  import opened Recovery
  import opened RecoveryRuns

  // ----- cleanup -----

  /** How many cleanup paths come before the first one outside the roots. */
  function BeforeStray(roots: set<Path>, cleanup: seq<Path>): (n: nat)
    ensures n <= |cleanup|
  {
    if cleanup == [] || !Allowed(roots, cleanup[0]) then 0 else 1 + BeforeStray(roots, cleanup[1..])
  }

  function Least(a: nat, b: nat): nat { if a < b then a else b }

  /** The file goes: its tree is removed, or it is among what a removal that fails has
      already torn away. */
  predicate Goes(roots: set<Path>, cleanup: seq<Path>, faults: Faults, budget: nat, q: Path) {
    var stray := BeforeStray(roots, cleanup);
    || Covered(cleanup[..Least(budget, stray)], q)
    || (budget < stray && Within(cleanup[budget], q) && q in faults.torn)
  }

  lemma {:induction false} CleanUpExactly(roots: set<Path>, files: Files, cleanup: seq<Path>, faults: Faults, budget: nat)
    ensures var (done, files') := CleanUp(roots, files, cleanup, faults, budget);
      && (done <==> |cleanup| <= budget && BeforeStray(roots, cleanup) == |cleanup|)
      && (forall q :: Lookup(files', q) == if Goes(roots, cleanup, faults, budget, q) then None else Lookup(files, q))
    decreases |cleanup|
  {
    if cleanup != [] && Allowed(roots, cleanup[0]) && budget != 0 {
      var rest := cleanup[1..];
      CleanUpExactly(roots, RemoveTree(files, cleanup[0]), rest, faults, budget - 1);
      var n := Least(budget - 1, BeforeStray(roots, rest));
      assert cleanup[..n+1] == [cleanup[0]] + rest[..n];
      forall q
        ensures Goes(roots, cleanup, faults, budget, q) <==> Within(cleanup[0], q) || Goes(roots, rest, faults, budget - 1, q)
      {
        assert Covered(cleanup[..n+1], q) <==> Within(cleanup[0], q) || Covered(rest[..n], q);
      }
    }
  }

  /** Some file is under a removed tree. */
  ghost predicate Loses(roots: set<Path>, cleanup: seq<Path>, faults: Faults, budget: nat, files: Files) {
    exists q <- files :: Goes(roots, cleanup, faults, budget, q)
  }

  lemma LosesExactly(roots: set<Path>, files: Files, cleanup: seq<Path>, faults: Faults, budget: nat)
    ensures CleanUp(roots, files, cleanup, faults, budget).1 != files <==> Loses(roots, cleanup, faults, budget, files)
  {
    CleanUpExactly(roots, files, cleanup, faults, budget);
    var files' := CleanUp(roots, files, cleanup, faults, budget).1;
    if Loses(roots, cleanup, faults, budget, files) {
      var q :| q in files && Goes(roots, cleanup, faults, budget, q);
      assert Lookup(files', q) == None;
    } else {
      SameFiles(files, files');
    }
  }

  lemma SameFiles(files: Files, files': Files)
    requires forall q | q in files :: Lookup(files', q) == Lookup(files, q)
    requires forall q | q in files' :: q in files
    ensures files' == files
  {
    forall q <- files ensures q in files' && files'[q] == files[q] {
      assert Lookup(files', q) == Lookup(files, q);
    }
  }

  lemma {:induction false} AllowedMeansNoStray(roots: set<Path>, cleanup: seq<Path>)
    ensures BeforeStray(roots, cleanup) == |cleanup| <==> forall c <- cleanup :: Allowed(roots, c)
    ensures BeforeStray(roots, cleanup) < |cleanup| ==> !Allowed(roots, cleanup[BeforeStray(roots, cleanup)])
  {
    if cleanup != [] && Allowed(roots, cleanup[0]) {
      AllowedMeansNoStray(roots, cleanup[1..]);
      assert cleanup == [cleanup[0]] + cleanup[1..];
    }
  }

  /** A landed entry with a cleanup path outside its roots stays pending. Recovery leaves
      every file alone if and only if no file lies under a cleanup path before the first
      stray one. */
  lemma StrayCleanupExactly(root: Path, e: Entry, files: Files, faults: Faults)
    requires e.payload.Some? && Classify(root, e, files) == AtAfter && !CleanupAllowed(root, e)
    requires Uninterrupted(e, faults)
    ensures var (o, files') := Recover(root, e, files, faults);
      var cleanup := e.payload.value.cleanup;
      && o.Pending?
      && (files' == files <==> forall q <- files :: !Covered(cleanup[..BeforeStray(Roots(root, e), cleanup)], q))
  {
    var roots, cleanup := Roots(root, e), e.payload.value.cleanup;
    AllowedMeansNoStray(roots, cleanup);
    CleanUpExactly(roots, files, cleanup, faults, faults.changes);
    LosesExactly(roots, files, cleanup, faults, faults.changes);
    assert Least(faults.changes, BeforeStray(roots, cleanup)) == BeforeStray(roots, cleanup);
  }

  /** The write tools journal at most one cleanup path: when that one is stray, no file
      is ever touched, whatever fails. */
  lemma SingleStrayPathIsHarmless(root: Path, e: Entry, files: Files, faults: Faults)
    requires e.payload.Some? && Classify(root, e, files) == AtAfter && !CleanupAllowed(root, e)
    requires |e.payload.value.cleanup| <= 1
    ensures Recover(root, e, files, faults) == (Pending(false), files)
  {
    var roots, cleanup := Roots(root, e), e.payload.value.cleanup;
    assert cleanup == [cleanup[0]] && !Allowed(roots, cleanup[0]);
  }

  // ----- writing back -----

  /** How many files are written back before the budget ends or a path is blocked. */
  function Reach(files: Files, changes: seq<FileChange>, budget: nat): (n: nat)
    ensures n <= |changes| && n <= budget
    decreases |changes|
  {
    if changes == [] || budget == 0 || Blocked(files, changes[0].path) then 0
    else 1 + Reach(SetFile(files, changes[0].path, changes[0].before), changes[1..], budget - 1)
  }

  /** The before state the list writes last at `q`. */
  function LastWritten(changes: seq<FileChange>, q: Path): Option<Option<string>> {
    if changes == [] then None
    else
      var later := LastWritten(changes[1..], q);
      if later.Some? then later else if changes[0].path == q then Some(changes[0].before) else None
  }

  lemma {:induction false} RollBackExactly(files: Files, changes: seq<FileChange>, budget: nat)
    ensures var (done, files') := RollBack(files, changes, budget);
      var n := Reach(files, changes, budget);
      && (done <==> n == |changes|)
      && (forall q :: Lookup(files', q) == match LastWritten(changes[..n], q) case Some(b) => b case None => Lookup(files, q))
    decreases |changes|
  {
    if changes != [] && budget != 0 && !Blocked(files, changes[0].path) {
      var files1 := SetFile(files, changes[0].path, changes[0].before);
      RollBackExactly(files1, changes[1..], budget - 1);
      var n := Reach(files1, changes[1..], budget - 1);
      assert changes[..n+1][1..] == changes[1..][..n];
    }
  }

  /** Some file written back was not at its before state. */
  ghost predicate Restores(files: Files, changes: seq<FileChange>) {
    exists q :: LastWritten(changes, q).Some? && LastWritten(changes, q) != Some(Lookup(files, q))
  }

  lemma RestoresExactly(files: Files, changes: seq<FileChange>, budget: nat)
    ensures RollBack(files, changes, budget).1 != files <==> Restores(files, changes[..Reach(files, changes, budget)])
  {
    RollBackExactly(files, changes, budget);
    var written, files' := changes[..Reach(files, changes, budget)], RollBack(files, changes, budget).1;
    if Restores(files, written) {
      var q :| LastWritten(written, q).Some? && LastWritten(written, q) != Some(Lookup(files, q));
      assert Lookup(files', q) != Lookup(files, q);
    } else {
      forall q ensures Lookup(files', q) == Lookup(files, q) {
        assert LastWritten(written, q).Some? ==> LastWritten(written, q) == Some(Lookup(files, q));
      }
      SameLookups(files, files');
    }
  }

  lemma SameLookups(files: Files, files': Files)
    requires forall q :: Lookup(files', q) == Lookup(files, q)
    ensures files' == files
  {
    forall q | q in files' ensures q in files {
      assert Lookup(files', q) == Lookup(files, q);
    }
    SameFiles(files, files');
  }

  // ----- unreported changes -----

  /** Recovery changes files and does not report it: a landed bundle whose cleanup stops,
      at a fault or at a stray path, after some file went; a landed page whose very first
      removal fails half-way; or a mixed bundle whose write-back stops after some file
      was restored. */
  ghost predicate Silent(root: Path, e: Entry, files: Files, faults: Faults)
    requires e.payload.Some?
  {
    var p, roots := e.payload.value, Roots(root, e);
    && ReadPaths(e) * faults.unreadable == {}
    && match Classify(root, e, files)
       case AtAfter =>
         && Loses(roots, p.cleanup, faults, faults.changes, files)
         && (if e.Bundle() then faults.changes < |p.cleanup| || BeforeStray(roots, p.cleanup) < |p.cleanup| else faults.changes == 0)
       case Mixed =>
         var n := Reach(files, p.files, faults.changes);
         n < |p.files| && Restores(files, p.files[..n])
       case _ => false
  }

  /** Over every entry, every state of the files and every fault. */
  lemma SilentExactly(root: Path, e: Entry, files: Files, faults: Faults)
    requires e.payload.Some?
    ensures var (o, files') := Recover(root, e, files, faults);
      files' != files && !o.changed <==> Silent(root, e, files, faults)
  {
    var p, roots := e.payload.value, Roots(root, e);
    if Classify(root, e, files) == AtAfter {
      CleanUpExactly(roots, files, p.cleanup, faults, faults.changes);
      LosesExactly(roots, files, p.cleanup, faults, faults.changes);
    } else if Classify(root, e, files) == Mixed {
      RollBackExactly(files, p.files, faults.changes);
      RestoresExactly(files, p.files, faults.changes);
    }
  }

  lemma RollBackChanges(files: Files, fs: seq<FileChange>, budget: nat)
    requires Unrelated(fs) && forall f <- fs :: !Blocked(files, f.path)
    ensures RollBack(files, fs, budget).0 <==> |fs| <= budget
    ensures RollBack(files, fs, budget).1 != files <==> exists i :: 0 <= i < budget && i < |fs| && !IsBefore(files, fs[i])
  {
    RollBackEffect(files, fs, budget);
    var files' := RollBack(files, fs, budget).1;
    if i :| 0 <= i < budget && i < |fs| && !IsBefore(files, fs[i]) {
      assert Lookup(files', fs[i].path) != Lookup(files, fs[i].path);
    } else {
      forall q ensures Lookup(files', q) == Lookup(files, q) {
        if q in (set f <- fs :: f.path) {
          var i :| 0 <= i < |fs| && fs[i].path == q;
          assert i < budget ==> IsBefore(files, fs[i]);
        }
      }
      SameLookups(files, files');
    }
  }

  /** For a well-formed mixed bundle: the files before the fault, taken by themselves. */
  lemma SilentRollBack(root: Path, e: Entry, files: Files, faults: Faults)
    requires e.payload.Some? && NonNested(e) && Classify(root, e, files) == Mixed && ReadPaths(e) * faults.unreadable == {}
    ensures var fs, (o, files') := e.payload.value.files, Recover(root, e, files, faults);
      files' != files && !o.changed <==>
        faults.changes < |fs| && exists i :: 0 <= i < faults.changes && !IsBefore(files, fs[i])
  {
    var fs := e.payload.value.files;
    assert forall f <- fs :: f.path in ReadPaths(e);
    RollBackChanges(files, fs, faults.changes);
  }

  // ----- inputs -----

  /** A page has landed, and its row names a tree inside and a path outside the content
      root: the tree is removed, and the row stays pending. */
  lemma StrayCleanupStillRemoves(root: Path, page: Path, inside: Path, outside: Path)
    requires Within(root, page) && Within(root, inside) && !Within(root, outside) && page != inside && !Comparable(page, inside)
    ensures var e := Entry("content_write", "in_progress",
                           Some(Payload(page, Revision("a"), Revision("b"), NoPath, [], [inside, outside], None)), 0);
      var files: Files := map[page := "b", inside := "keep"];
      var (o, files') := Recover(root, e, files, Faults({}, 2, {}, 0));
      o.Pending? && files' != files
  {
    var e := Entry("content_write", "in_progress",
                   Some(Payload(page, Revision("a"), Revision("b"), NoPath, [], [inside, outside], None)), 0);
    var files: Files := map[page := "b", inside := "keep"];
    assert ReadPaths(e) == {page} && !Blocked(files, page) && Roots(root, e) == {root};
    assert Classify(root, e, files) == AtAfter;
    var cleanup := [inside, outside];
    assert cleanup[1..] == [outside] && outside in cleanup && BeforeStray({root}, [outside]) == 0;
    assert BeforeStray({root}, cleanup) == 1 && cleanup[..1] == [inside];
    assert Within(inside, inside) && Covered(cleanup[..1], inside);
    StrayCleanupExactly(root, e, files, Faults({}, 2, {}, 0));
  }

  /** Three files, two of them written, and a write-back that stops after one. */
  lemma InterruptedRollBackIsSilent(root: Path, p: Path, q: Path, r: Path)
    requires Within(root, p) && Within(root, q) && Within(root, r)
    requires p != q && q != r && p != r && !Comparable(p, q) && !Comparable(q, r) && !Comparable(p, r)
    ensures var fs := [FileChange(p, Some("0"), Some("1")), FileChange(q, Some("0"), Some("1")), FileChange(r, Some("0"), Some("1"))];
      var e := Entry("bundle_write", "in_progress", Some(Payload(NoPath, "", "", root, fs, [], None)), 0);
      var files: Files := map[p := "1", q := "1", r := "0"];
      var (o, files') := Recover(root, e, files, Faults({}, 1, {}, 0));
      files' != files && !o.changed
  {
    var fs := [FileChange(p, Some("0"), Some("1")), FileChange(q, Some("0"), Some("1")), FileChange(r, Some("0"), Some("1"))];
    var e := Entry("bundle_write", "in_progress", Some(Payload(NoPath, "", "", root, fs, [], None)), 0);
    var files: Files := map[p := "1", q := "1", r := "0"];
    assert ReadPaths(e) == {p, q, r} && forall x <- {p, q, r} :: !Blocked(files, x);
    assert fs[0] in fs && fs[2] in fs && !IsBefore(files, fs[0]) && !IsAfter(files, fs[2]);
    assert Roots(root, e) == {root} && AllKnown({root}, files, fs);
    assert Classify(root, e, files) == Mixed;
    SilentRollBack(root, e, files, Faults({}, 1, {}, 0));
  }
}
