/** One journalled entry: all-or-nothing repair, repeated crashes, and exactly when
    recovery removes what it should not or changes files without saying so. */
module RecoveryRuns {
  import opened Common
  import opened Recovery
  import opened RecoveryServer

  // ----- what recovery relies on -----

  /** Distinct paths, none below another. */
  predicate NonNested(e: Entry)
    requires e.payload.Some?
  {
    Unrelated(e.payload.value.files)
  }

  predicate Unrelated(fs: seq<FileChange>) {
    forall i, j :: 0 <= i < j < |fs| ==> fs[i].path != fs[j].path && !Comparable(fs[i].path, fs[j].path)
  }

  /** Every path the entry is read at can be read. */
  predicate Readable(e: Entry, files: Files)
    requires e.payload.Some?
  {
    forall q <- ReadPaths(e) :: !Blocked(files, q)
  }

  /** The read paths that hold a file once the mutation has landed. */
  function PresentAfter(e: Entry): set<Path>
    requires e.payload.Some?
  {
    var p := e.payload.value;
    if e.Bundle() then set f <- p.files | f.after.Some? :: f.path
    else if p.afterRevision != "" then {p.path} else {}
  }

  /** No cleanup path covers a file that the landed mutation put in place. */
  predicate CleanupClear(e: Entry)
    requires e.payload.Some?
  {
    forall c <- e.payload.value.cleanup, q <- PresentAfter(e) :: !Within(c, q)
  }

  predicate CleanupAllowed(root: Path, e: Entry)
    requires e.payload.Some?
  {
    forall c <- e.payload.value.cleanup :: Allowed(Roots(root, e), c)
  }

  predicate Covered(cleanup: seq<Path>, q: Path) {
    exists c <- cleanup :: Within(c, q)
  }

  /** Everything an attempt on the entry may change. */
  predicate Writes(e: Entry, q: Path)
    requires e.payload.Some?
  {
    (e.Bundle() && q in ReadPaths(e)) || Covered(e.payload.value.cleanup, q)
  }

  /** No fault is hit. */
  predicate Uninterrupted(e: Entry, faults: Faults)
    requires e.payload.Some?
  {
    faults.unreadable == {} && faults.changes >= |e.payload.value.files| + |e.payload.value.cleanup|
  }

  // ----- one entry -----

  lemma {:induction false} CleanUpEffect(roots: set<Path>, files: Files, cleanup: seq<Path>, faults: Faults, budget: nat)
    ensures var (done, files') := CleanUp(roots, files, cleanup, faults, budget);
      && (done <==> |cleanup| <= budget && forall c <- cleanup :: Allowed(roots, c))
      && (forall q :: !Covered(cleanup, q) ==> Lookup(files', q) == Lookup(files, q))
      && (forall q :: Lookup(files', q) == Lookup(files, q) || Lookup(files', q) == None)
      && (done ==> forall q :: Covered(cleanup, q) ==> Lookup(files', q) == None)
    decreases |cleanup|
  {
    if cleanup != [] && Allowed(roots, cleanup[0]) && budget != 0 {
      CleanUpEffect(roots, RemoveTree(files, cleanup[0]), cleanup[1..], faults, budget - 1);
      assert cleanup == [cleanup[0]] + cleanup[1..];
      assert forall q :: Covered(cleanup, q) <==> Within(cleanup[0], q) || Covered(cleanup[1..], q);
    } else if cleanup != [] {
      assert forall q :: Within(cleanup[0], q) ==> Covered(cleanup, q);
    }
  }

  lemma BlockedLess(files: Files, files': Files, p: Path)
    requires forall q :: q != p && Comparable(p, q) && q in files' ==> q in files
    ensures Blocked(files', p) ==> Blocked(files, p)
  {
  }

  lemma {:induction false} RollBackEffect(files: Files, changes: seq<FileChange>, budget: nat)
    requires Unrelated(changes) && forall f <- changes :: !Blocked(files, f.path)
    ensures var (done, files') := RollBack(files, changes, budget);
      && (done <==> |changes| <= budget)
      && (forall i :: 0 <= i < |changes| ==>
            Lookup(files', changes[i].path) == if i < budget then changes[i].before else Lookup(files, changes[i].path))
      && (forall q :: q !in (set f <- changes :: f.path) ==> Lookup(files', q) == Lookup(files, q))
    decreases |changes|
  {
    if changes != [] && budget != 0 {
      assert changes[0] in changes;
      var files1 := SetFile(files, changes[0].path, changes[0].before);
      forall f <- changes[1..] ensures !Blocked(files1, f.path) {
        var k :| 0 <= k < |changes[1..]| && changes[1..][k] == f;
        assert changes[k+1] == f && f in changes;
        BlockedLess(files, files1, f.path);
      }
      RollBackEffect(files1, changes[1..], budget - 1);
      var files' := RollBack(files1, changes[1..], budget - 1).1;
      forall i | 0 <= i < |changes|
        ensures Lookup(files', changes[i].path) == if i < budget then changes[i].before else Lookup(files, changes[i].path)
      {
        if i > 0 {
          assert changes[1..][i-1] == changes[i];
        }
      }
      assert (set f <- changes[1..] :: f.path) <= (set f <- changes :: f.path);
    } else {
      assert changes != [] ==> changes[0].path in (set f <- changes :: f.path);
    }
  }

  lemma VerdictFrame(roots: set<Path>, files: Files, files': Files, fs: seq<FileChange>)
    requires forall f <- fs :: Lookup(files', f.path) == Lookup(files, f.path)
    ensures BundleVerdict(roots, files', fs) == BundleVerdict(roots, files, fs)
  {
    assert AllBefore(files', fs) == AllBefore(files, fs);
    assert AllAfter(files', fs) == AllAfter(files, fs);
    assert AllKnown(roots, files', fs) == AllKnown(roots, files, fs);
  }

  /** Classification depends on the read paths and on what blocks them. */
  lemma ClassifyFrame(root: Path, e: Entry, files: Files, files': Files)
    requires e.payload.Some?
    requires forall q <- ReadPaths(e) :: Lookup(files', q) == Lookup(files, q) && (Blocked(files', q) <==> Blocked(files, q))
    ensures Classify(root, e, files') == Classify(root, e, files)
  {
    assert (exists q <- ReadPaths(e) :: Blocked(files, q)) == (exists q <- ReadPaths(e) :: Blocked(files', q));
    if e.Bundle() {
      assert forall f <- e.payload.value.files :: f.path in ReadPaths(e);
      VerdictFrame(Roots(root, e), files, files', e.payload.value.files);
    } else {
      assert e.payload.value.path in ReadPaths(e);
      assert Lookup(files', e.payload.value.path) == Lookup(files, e.payload.value.path);
    }
  }

  lemma CleanUpKeepsReads(root: Path, e: Entry, files: Files, faults: Faults, budget: nat)
    requires e.payload.Some? && CleanupClear(e) && Classify(root, e, files) == AtAfter
    ensures var files' := CleanUp(Roots(root, e), files, e.payload.value.cleanup, faults, budget).1;
      forall q <- ReadPaths(e) :: Lookup(files', q) == Lookup(files, q) && !Blocked(files', q)
  {
    var p := e.payload.value;
    CleanUpEffect(Roots(root, e), files, p.cleanup, faults, budget);
    var files' := CleanUp(Roots(root, e), files, p.cleanup, faults, budget).1;
    forall q | q in files' ensures q in files {
      assert Lookup(files', q) == Lookup(files, q);
    }
    forall q <- ReadPaths(e) ensures !Blocked(files', q) {
      BlockedLess(files, files', q);
    }
    forall q <- ReadPaths(e) | q !in PresentAfter(e) ensures Lookup(files, q) == None {
      if e.Bundle() {
        var f :| f in p.files && f.path == q;
        assert IsAfter(files, f);
      }
    }
  }

  lemma Apart(fs: seq<FileChange>, k: nat, q: Path)
    requires Unrelated(fs) && k < |fs| && q in (set f <- fs :: f.path) && q != fs[k].path
    ensures !Comparable(fs[k].path, q)
  {
    var m :| 0 <= m < |fs| && fs[m].path == q;
    assert m < k || k < m;
  }

  /** Writing the files of one entry back blocks none of them. */
  lemma RollBackKeepsReadable(e: Entry, files: Files, budget: nat)
    requires e.payload.Some? && e.Bundle() && NonNested(e) && Readable(e, files)
    ensures Readable(e, RollBack(files, e.payload.value.files, budget).1)
  {
    var fs := e.payload.value.files;
    assert forall f <- fs :: f.path in ReadPaths(e);
    RollBackEffect(files, fs, budget);
    var files' := RollBack(files, fs, budget).1;
    forall k: nat | k < |fs| ensures !Blocked(files', fs[k].path) {
      StaysReadable(fs, files, files', k);
    }
  }

  lemma StaysReadable(fs: seq<FileChange>, files: Files, files': Files, k: nat)
    requires Unrelated(fs) && k < |fs| && !Blocked(files, fs[k].path)
    requires forall q :: q !in (set f <- fs :: f.path) ==> Lookup(files', q) == Lookup(files, q)
    ensures !Blocked(files', fs[k].path)
  {
    forall q | q != fs[k].path && Comparable(fs[k].path, q) ensures q !in files' {
      if q in (set f <- fs :: f.path) {
        Apart(fs, k, q);
      }
      assert Lookup(files', q) == Lookup(files, q);
    }
  }

  /** A roll-back that is cut off leaves a mixture or the whole before state; never
      the after state. */
  lemma RollBackVerdict(root: Path, e: Entry, files: Files, budget: nat)
    requires e.payload.Some? && e.Bundle() && NonNested(e) && Classify(root, e, files) == Mixed
    ensures var (done, files') := RollBack(files, e.payload.value.files, budget);
      && Classify(root, e, files') in {Mixed, AtBefore}
      && (done ==> Classify(root, e, files') == AtBefore)
      && !AllAfter(files', e.payload.value.files)
  {
    var fs := e.payload.value.files;
    assert forall f <- fs :: f.path in ReadPaths(e);
    RollBackEffect(files, fs, budget);
    RollBackKeepsReadable(e, files, budget);
    PartlyRestored(Roots(root, e), files, RollBack(files, fs, budget).1, fs, budget);
  }

  /** Some files of a mixture set to their before bytes. */
  lemma PartlyRestored(roots: set<Path>, files: Files, files': Files, fs: seq<FileChange>, n: nat)
    requires BundleVerdict(roots, files, fs) == Mixed
    requires forall i :: 0 <= i < |fs| ==> Lookup(files', fs[i].path) == if i < n then fs[i].before else Lookup(files, fs[i].path)
    ensures BundleVerdict(roots, files', fs) in {Mixed, AtBefore} && !AllAfter(files', fs)
    ensures |fs| <= n ==> BundleVerdict(roots, files', fs) == AtBefore
  {
    forall f <- fs
      ensures IsBefore(files', f) || Lookup(files', f.path) == Lookup(files, f.path)
      ensures IsBefore(files, f) ==> IsBefore(files', f)
      ensures |fs| <= n ==> IsBefore(files', f)
    {
      var i :| 0 <= i < |fs| && fs[i] == f;
    }
    assert AllKnown(roots, files', fs);
    var g :| g in fs && !IsAfter(files, g);
    assert IsBefore(files, g) && !IsAfter(files', g);
  }

  /** How the classification moves under one recovery attempt, whatever faults hit it. */
  ghost predicate Progress(v: Verdict, v': Verdict) {
    if v == Mixed then v' in {Mixed, AtBefore} else v' == v
  }

  lemma RecoverStep(root: Path, e: Entry, files: Files, faults: Faults)
    requires e.payload.Some? && NonNested(e) && CleanupClear(e)
    ensures var (o, files') := Recover(root, e, files, faults);
      var v, v' := Classify(root, e, files), Classify(root, e, files');
      && Progress(v, v')
      && (v == Ambiguous ==> o.Pending? && files' == files)
      && (o.Resolved? ==> (o.landed <==> v == AtAfter) && (!o.landed ==> v' == AtBefore))
      && (forall q :: !Writes(e, q) ==> Lookup(files', q) == Lookup(files, q))
      && (Uninterrupted(e, faults) && v != Ambiguous && (v == AtAfter ==> CleanupAllowed(root, e)) ==> o.Resolved?)
  {
    var p := e.payload.value;
    var v := Classify(root, e, files);
    if v == AtAfter {
      CleanUpEffect(Roots(root, e), files, p.cleanup, faults, faults.changes);
      CleanUpKeepsReads(root, e, files, faults, faults.changes);
      ClassifyFrame(root, e, files, CleanUp(Roots(root, e), files, p.cleanup, faults, faults.changes).1);
    } else if v == Mixed {
      assert forall f <- p.files :: f.path in ReadPaths(e);
      RollBackEffect(files, p.files, faults.changes);
      RollBackVerdict(root, e, files, faults.changes);
    }
  }

  /** A resolved bundle ends wholly at its before or wholly at its after bytes, a
      strict mixture always ends at the before bytes, and an undisturbed attempt does
      resolve. Which files were written before the crash does not matter. */
  lemma AllOrNothing(root: Path, e: Entry, files: Files, faults: Faults)
    requires e.payload.Some? && e.Bundle() && e.payload.value.files != []
    requires NonNested(e) && CleanupClear(e)
    requires AllKnown(Roots(root, e), files, e.payload.value.files) && Readable(e, files)
    ensures var fs, (o, files') := e.payload.value.files, Recover(root, e, files, faults);
      && (o.Resolved? && o.landed ==> AllAfter(files, fs) && AllAfter(files', fs))
      && (o.Resolved? && !o.landed ==> AllBefore(files', fs))
      && (!AllAfter(files, fs) ==> !AllAfter(files', fs) || AllBefore(files', fs))
      && (AllAfter(files, fs) && !AllBefore(files, fs) ==> AllAfter(files', fs))
      && (Uninterrupted(e, faults) && CleanupAllowed(root, e) ==>
            o.Resolved? && (o.landed <==> AllAfter(files, fs) && !AllBefore(files, fs)))
  {
    RecoverStep(root, e, files, faults);
    if Classify(root, e, files) == Mixed {
      RollBackVerdict(root, e, files, faults.changes);
    }
  }

  /** Recovery started over and over, each attempt cut off by its own faults. */
  function RecoverMany(root: Path, e: Entry, files: Files, attempts: seq<Faults>): Files
    requires e.payload.Some?
    decreases |attempts|
  {
    if attempts == [] then files
    else RecoverMany(root, e, Recover(root, e, files, attempts[0]).1, attempts[1..])
  }

  /** The first crash state fixes the verdict of every later attempt, a mixture never
      turns into the after state, and an undisturbed attempt ends the story. */
  lemma {:induction false} VerdictFixedByFirstCrash(root: Path, e: Entry, files: Files, attempts: seq<Faults>, last: Faults)
    requires e.payload.Some? && NonNested(e) && CleanupClear(e)
    ensures var v := Classify(root, e, files);
      var files' := RecoverMany(root, e, files, attempts);
      var (o, end) := Recover(root, e, files', last);
      && Progress(v, Classify(root, e, files'))
      && (v == Ambiguous ==> files' == files && o.Pending?)
      && (o.Resolved? ==> (o.landed <==> v == AtAfter))
      && (v == Mixed ==> !AllAfter(end, e.payload.value.files) || AllBefore(end, e.payload.value.files))
      && (Uninterrupted(e, last) && v != Ambiguous && (v == AtAfter ==> CleanupAllowed(root, e)) ==>
            o.Resolved? && Classify(root, e, end) == if v == AtAfter then AtAfter else AtBefore)
    decreases |attempts|
  {
    if attempts == [] {
      RecoverStep(root, e, files, last);
    } else {
      RecoverStep(root, e, files, attempts[0]);
      VerdictFixedByFirstCrash(root, e, Recover(root, e, files, attempts[0]).1, attempts[1..], last);
    }
    var files' := RecoverMany(root, e, files, attempts);
    RecoverStep(root, e, files', last);
    if Classify(root, e, files) == Mixed {
      assert Classify(root, e, Recover(root, e, files', last).1) in {Mixed, AtBefore};
    }
  }

  /** The cleanup assumption is exact: a landed entry keeps its after state through an
      undisturbed recovery if and only if its cleanup paths avoid the files the
      mutation put in place. */
  lemma LandedSurvivesCleanup(root: Path, e: Entry, files: Files, faults: Faults)
    requires e.payload.Some? && CleanupAllowed(root, e) && Uninterrupted(e, faults)
    requires Classify(root, e, files) == AtAfter
    ensures var (o, files') := Recover(root, e, files, faults);
      && o.Resolved? && o.landed
      && (CleanupClear(e) <==> forall q <- PresentAfter(e) :: q in files')
      && (CleanupClear(e) ==> Classify(root, e, files') == AtAfter)
  {
    var p := e.payload.value;
    CleanUpEffect(Roots(root, e), files, p.cleanup, faults, faults.changes);
    var files' := CleanUp(Roots(root, e), files, p.cleanup, faults, faults.changes).1;
    forall q <- PresentAfter(e) ensures q in files {
      if e.Bundle() {
        var f :| f in p.files && f.after.Some? && f.path == q;
        assert IsAfter(files, f);
      }
    }
    forall q <- PresentAfter(e)
      ensures q in files' <==> !Covered(p.cleanup, q)
    {
      assert Lookup(files', q) == if Covered(p.cleanup, q) then None else Lookup(files, q);
    }
    assert CleanupClear(e) <==> forall q <- PresentAfter(e) :: !Covered(p.cleanup, q);
    if CleanupClear(e) {
      CleanUpKeepsReads(root, e, files, faults, faults.changes);
      ClassifyFrame(root, e, files, files');
    }
  }

  /** A settled entry that reports no change made none. */
  lemma SettledReportsChanges(root: Path, e: Entry, files: Files, faults: Faults)
    requires e.payload.Some?
    ensures var (o, files') := Recover(root, e, files, faults);
      o.Resolved? && !o.changed ==> files' == files
  {
    var p := e.payload.value;
    if Classify(root, e, files) == AtAfter && p.cleanup == [] {
      assert CleanUp(Roots(root, e), files, p.cleanup, faults, faults.changes) == (true, files);
    }
  }
}
