/** Two pending entries over related paths: exactly when recovering one can change what
    recovery decides about the other. The answer depends on their paths alone. */
module RecoveryOverlap {
  import opened Common
  import opened Recovery
  import opened RecoveryRuns
  import opened RecoveryLimits

  /** The entry names paths, all of them inside its roots. */
  predicate Decidable(root: Path, e: Entry)
    requires e.payload.Some?
  {
    (e.Bundle() ==> e.payload.value.files != []) && forall q <- ReadPaths(e) :: Allowed(Roots(root, e), q)
  }

  /** The longer of two comparable paths. */
  function Deeper(p: Path, q: Path): Path {
    if Within(p, q) then q else p
  }

  /** Writing back file `i` of the bundle reaches `q`, while file `j` keeps the bundle a
      mixture without already blocking every such read. */
  predicate WriteBackReaches(e: Entry, d: Entry, i: nat, j: nat, q: Path)
    requires e.payload.Some? && d.payload.Some? && i < |d.payload.value.files| && j < |d.payload.value.files|
  {
    var fs := d.payload.value.files;
    && i != j && q in ReadPaths(e) && Comparable(fs[i].path, q)
    && (!Covered(d.payload.value.cleanup, fs[j].path)
        || forall r <- ReadPaths(e) :: r == fs[j].path || !Comparable(r, fs[j].path))
  }

  /** Removing tree `k` reaches `q` or something below it, and nothing `d` reads is in
      the way. */
  predicate CleanupReaches(e: Entry, d: Entry, k: nat, q: Path)
    requires e.payload.Some? && d.payload.Some? && k < |d.payload.value.cleanup|
  {
    var c := d.payload.value.cleanup[k];
    q in ReadPaths(e) && Comparable(c, q) && forall p <- ReadPaths(d) :: !Within(p, Deeper(c, q))
  }

  /** Recovering `d` can change the verdict on `e`. */
  predicate Meddles(root: Path, e: Entry, d: Entry)
    requires e.payload.Some? && d.payload.Some?
  {
    Decidable(root, e) && Decidable(root, d) && ((d.Bundle() && ByWriteBack(e, d)) || ByCleanup(root, e, d))
  }

  predicate ByWriteBack(e: Entry, d: Entry)
    requires e.payload.Some? && d.payload.Some?
  {
    exists i: nat, j: nat, q <- ReadPaths(e) ::
      i < |d.payload.value.files| && j < |d.payload.value.files| && WriteBackReaches(e, d, i, j, q)
  }

  predicate ByCleanup(root: Path, e: Entry, d: Entry)
    requires e.payload.Some? && d.payload.Some?
  {
    exists k: nat, q <- ReadPaths(e) ::
      k < BeforeStray(Roots(root, d), d.payload.value.cleanup) && CleanupReaches(e, d, k, q)
  }

  // ----- no meddling, no change -----

  lemma PrefixesCompare(p: Path, q: Path, r: Path)
    requires Within(p, r) && Within(q, r)
    ensures Comparable(p, q)
  {
    if |p.parts| <= |q.parts| {
      assert q.parts == r.parts[..|q.parts|] && p.parts == r.parts[..|p.parts|];
      assert p.parts == q.parts[..|p.parts|];
    } else {
      assert q.parts == r.parts[..|q.parts|] && p.parts == r.parts[..|p.parts|];
      assert q.parts == p.parts[..|q.parts|];
    }
  }

  lemma DecidedIsDecidable(root: Path, e: Entry, files: Files)
    requires e.payload.Some? && Classify(root, e, files) != Ambiguous
    ensures Decidable(root, e) && Readable(e, files)
  {
    if e.Bundle() {
      forall q <- ReadPaths(e) ensures Allowed(Roots(root, e), q) {
        var f :| f in e.payload.value.files && f.path == q;
      }
    }
  }

  /** What cleanup removes was present, is not read by the entry, and nothing the entry
      reads is related to it. */
  lemma RemovedIsUnrelated(root: Path, d: Entry, files: Files, faults: Faults, b: Path)
    requires d.payload.Some? && CleanupClear(d) && Classify(root, d, files) == AtAfter && b in files
    requires Goes(Roots(root, d), d.payload.value.cleanup, faults, faults.changes, b)
    ensures forall p <- ReadPaths(d) :: !Comparable(p, b)
    ensures exists k: nat :: k < BeforeStray(Roots(root, d), d.payload.value.cleanup) && Within(d.payload.value.cleanup[k], b)
  {
    var cleanup, stray := d.payload.value.cleanup, BeforeStray(Roots(root, d), d.payload.value.cleanup);
    var n := Least(faults.changes, stray);
    if Covered(cleanup[..n], b) {
      var c :| c in cleanup[..n] && Within(c, b);
      var m :| 0 <= m < n && cleanup[..n][m] == c;
      assert Within(cleanup[m], b);
    }
    var k: nat :| k < stray && Within(cleanup[k], b);
    assert cleanup[k] in cleanup;
    if b in ReadPaths(d) {
      PresentWhenRead(root, d, files, b);
      assert false;
    }
    DecidedIsDecidable(root, d, files);
  }

  lemma PresentWhenRead(root: Path, e: Entry, files: Files, b: Path)
    requires e.payload.Some? && Classify(root, e, files) == AtAfter && b in files && b in ReadPaths(e)
    ensures b in PresentAfter(e)
  {
    if e.Bundle() {
      var f :| f in e.payload.value.files && f.path == b;
      assert IsAfter(files, f);
    }
  }

  lemma RemovalReaches(root: Path, e: Entry, d: Entry, b: Path, k: nat, q: Path)
    requires e.payload.Some? && d.payload.Some? && q in ReadPaths(e)
    requires k < |d.payload.value.cleanup| && Within(d.payload.value.cleanup[k], b)
    requires Comparable(q, b) && forall p <- ReadPaths(d) :: !Comparable(p, b)
    ensures CleanupReaches(e, d, k, q)
  {
    var c := d.payload.value.cleanup[k];
    if Within(q, b) {
      PrefixesCompare(c, q, b);
      forall p <- ReadPaths(d) ensures !Within(p, Deeper(c, q)) {
        if Within(p, Deeper(c, q)) {
          WithinTransitive(p, Deeper(c, q), b);
        }
      }
    } else {
      WithinTransitive(c, b, q);
      forall p <- ReadPaths(d) ensures !Within(p, Deeper(c, q)) {
        if Within(p, q) {
          PrefixesCompare(p, b, q);
        }
      }
    }
  }

  lemma WithinTransitive(p: Path, q: Path, r: Path)
    requires Within(p, q) && Within(q, r)
    ensures Within(p, r)
  {
    assert q.parts == r.parts[..|q.parts|];
  }

  lemma CleanupUndisturbed(root: Path, e: Entry, d: Entry, files: Files, faults: Faults)
    requires e.payload.Some? && d.payload.Some? && CleanupClear(d) && !Meddles(root, e, d)
    requires Classify(root, d, files) == AtAfter && Decidable(root, e)
    ensures var files' := CleanUp(Roots(root, d), files, d.payload.value.cleanup, faults, faults.changes).1;
      Classify(root, e, files') == Classify(root, e, files)
  {
    var roots, cleanup := Roots(root, d), d.payload.value.cleanup;
    var files' := CleanUp(roots, files, cleanup, faults, faults.changes).1;
    CleanUpExactly(roots, files, cleanup, faults, faults.changes);
    DecidedIsDecidable(root, d, files);
    forall q <- ReadPaths(e), b: Path | b in files && Comparable(q, b) ensures Lookup(files', b) == Lookup(files, b) {
      if Goes(roots, cleanup, faults, faults.changes, b) {
        RemovedIsUnrelated(root, d, files, faults, b);
        var k: nat :| k < BeforeStray(roots, cleanup) && Within(cleanup[k], b);
        RemovalReaches(root, e, d, b, k, q);
        assert false;
      }
    }
    RelatedFrame(root, e, files, files');
  }

  /** Only files related to a read path matter. */
  lemma RelatedFrame(root: Path, e: Entry, files: Files, files': Files)
    requires e.payload.Some? && Decidable(root, e)
    requires forall q <- ReadPaths(e), b: Path | b in files && Comparable(q, b) :: Lookup(files', b) == Lookup(files, b)
    requires forall q <- ReadPaths(e), b: Path | b in files' && Comparable(q, b) :: Lookup(files', b) == Lookup(files, b)
    ensures Classify(root, e, files') == Classify(root, e, files)
  {
    forall q <- ReadPaths(e)
      ensures Lookup(files', q) == Lookup(files, q) && (Blocked(files', q) <==> Blocked(files, q))
    {
      assert Allowed(Roots(root, e), q) && root in Roots(root, e) && Within(root, q);
      assert Comparable(q, q);
      forall b | b != q && Comparable(q, b) ensures b in files' <==> b in files {
      }
    }
    ClassifyFrame(root, e, files, files');
  }

  /** A file that the write-back really changes and that is related to a read path. */
  predicate Reached(e: Entry, files: Files, f: FileChange)
    requires e.payload.Some?
  {
    !IsBefore(files, f) && exists q <- ReadPaths(e) :: Comparable(f.path, q)
  }

  /** Then, without meddling, some other file of the bundle blocks the entry and stays. */
  lemma ReachedIsBlocked(root: Path, e: Entry, d: Entry, files: Files, i: nat)
    requires e.payload.Some? && d.payload.Some? && d.Bundle() && CleanupClear(d)
    requires !Meddles(root, e, d) && Decidable(root, e) && Classify(root, d, files) == Mixed
    requires i < |d.payload.value.files| && Reached(e, files, d.payload.value.files[i])
    ensures exists f <- d.payload.value.files :: IsBefore(files, f) && f.path in files && exists r <- ReadPaths(e) :: r != f.path && Comparable(r, f.path)
  {
    var fs := d.payload.value.files;
    DecidedIsDecidable(root, d, files);
    var q :| q in ReadPaths(e) && Comparable(fs[i].path, q);
    var g :| g in fs && !IsAfter(files, g);
    var j: nat :| j < |fs| && fs[j] == g;
    assert IsBefore(files, g) && i != j;
    assert !WriteBackReaches(e, d, i, j, q);
  }

  /** Write-back leaves a file at its before state where it is. */
  lemma WriteBackKeeps(files: Files, fs: seq<FileChange>, budget: nat, b: Path)
    requires Unrelated(fs) && (forall f <- fs :: !Blocked(files, f.path))
    requires forall f <- fs :: f.path == b ==> IsBefore(files, f)
    ensures Lookup(RollBack(files, fs, budget).1, b) == Lookup(files, b)
  {
    RollBackEffect(files, fs, budget);
    if b in (set f <- fs :: f.path) {
      var k :| 0 <= k < |fs| && fs[k].path == b;
      assert IsBefore(files, fs[k]);
    }
  }

  lemma BlockedThroughout(root: Path, e: Entry, d: Entry, files: Files, budget: nat, i: nat)
    requires e.payload.Some? && d.payload.Some? && d.Bundle() && CleanupClear(d) && NonNested(d)
    requires !Meddles(root, e, d) && Decidable(root, e) && Classify(root, d, files) == Mixed
    requires i < |d.payload.value.files| && Reached(e, files, d.payload.value.files[i])
    ensures Classify(root, e, files) == Ambiguous == Classify(root, e, RollBack(files, d.payload.value.files, budget).1)
  {
    var fs, files' := d.payload.value.files, RollBack(files, d.payload.value.files, budget).1;
    DecidedIsDecidable(root, d, files);
    assert forall f <- fs :: f.path in ReadPaths(d);
    ReachedIsBlocked(root, e, d, files, i);
    var f :| f in fs && IsBefore(files, f) && f.path in files && exists r <- ReadPaths(e) :: r != f.path && Comparable(r, f.path);
    var r :| r in ReadPaths(e) && r != f.path && Comparable(r, f.path);
    forall g <- fs | g.path == f.path ensures IsBefore(files, g) {
      OneChangePerPath(fs, f, g);
    }
    WriteBackKeeps(files, fs, budget, f.path);
    StaysBlocked(root, e, files, files', r, f.path);
  }

  lemma OneChangePerPath(fs: seq<FileChange>, f: FileChange, g: FileChange)
    requires Unrelated(fs) && f in fs && g in fs && f.path == g.path
    ensures f == g
  {
    var k :| 0 <= k < |fs| && fs[k] == f;
    var m :| 0 <= m < |fs| && fs[m] == g;
    assert k < m || m < k || k == m;
  }

  lemma StaysBlocked(root: Path, e: Entry, files: Files, files': Files, r: Path, b: Path)
    requires e.payload.Some? && r in ReadPaths(e) && r != b && Comparable(r, b)
    requires b in files && Lookup(files', b) == Lookup(files, b)
    ensures Classify(root, e, files) == Ambiguous == Classify(root, e, files')
  {
    assert b in files';
    assert Blocked(files, r) && Blocked(files', r);
  }

  lemma WriteBackUndisturbed(root: Path, e: Entry, d: Entry, files: Files, budget: nat)
    requires e.payload.Some? && d.payload.Some? && d.Bundle() && CleanupClear(d) && NonNested(d)
    requires !Meddles(root, e, d) && Decidable(root, e) && Classify(root, d, files) == Mixed
    ensures Classify(root, e, RollBack(files, d.payload.value.files, budget).1) == Classify(root, e, files)
  {
    var fs, files' := d.payload.value.files, RollBack(files, d.payload.value.files, budget).1;
    if i: nat :| i < |fs| && Reached(e, files, fs[i]) {
      BlockedThroughout(root, e, d, files, budget, i);
    } else {
      DecidedIsDecidable(root, d, files);
      assert forall f <- fs :: f.path in ReadPaths(d);
      forall q <- ReadPaths(e), b: Path | Comparable(q, b) ensures Lookup(files', b) == Lookup(files, b) {
        forall f <- fs ensures f.path == b ==> IsBefore(files, f) {
          var k: nat :| k < |fs| && fs[k] == f;
          assert !Reached(e, files, fs[k]);
        }
        WriteBackKeeps(files, fs, budget, b);
      }
      RelatedFrame(root, e, files, files');
    }
  }

  /** Entries that do not meddle: whatever the files and the faults, recovering one
      leaves the verdict on the other as it was. */
  lemma Undisturbed(root: Path, e: Entry, d: Entry, files: Files, faults: Faults)
    requires e.payload.Some? && d.payload.Some? && NonNested(d) && CleanupClear(d) && !Meddles(root, e, d)
    ensures Classify(root, e, Recover(root, d, files, faults).1) == Classify(root, e, files)
  {
    var files' := Recover(root, d, files, faults).1;
    if !Decidable(root, e) {
      if Classify(root, e, files) != Ambiguous {
        DecidedIsDecidable(root, e, files);
      }
      if Classify(root, e, files') != Ambiguous {
        DecidedIsDecidable(root, e, files');
      }
    } else if files' != files {
      if Classify(root, d, files) == AtAfter {
        CleanupUndisturbed(root, e, d, files, faults);
      } else {
        WriteBackUndisturbed(root, e, d, files, faults.changes);
      }
    }
  }

  // ----- meddling shows -----

  /** The same kind over the same paths; contents may differ. */
  predicate SameShape(e: Entry, e': Entry)
    requires e.payload.Some?
  {
    && e'.payload.Some? && e'.kind == e.kind
    && var p, p' := e.payload.value, e'.payload.value;
    && p'.path == p.path && p'.bundleDir == p.bundleDir && p'.cleanup == p.cleanup && |p'.files| == |p.files|
    && forall k :: 0 <= k < |p.files| ==> p'.files[k].path == p.files[k].path
  }

  lemma PathsWithin(fs: seq<FileChange>, gs: seq<FileChange>)
    requires |fs| == |gs| && forall k :: 0 <= k < |fs| ==> gs[k].path == fs[k].path
    ensures (set f <- fs :: f.path) <= (set g <- gs :: g.path)
  {
    forall f <- fs ensures f.path in (set g <- gs :: g.path) {
      var k :| 0 <= k < |fs| && fs[k] == f;
      assert gs[k] in gs && gs[k].path == f.path;
    }
  }

  lemma SameReads(root: Path, e: Entry, e': Entry)
    requires e.payload.Some? && SameShape(e, e')
    ensures ReadPaths(e') == ReadPaths(e) && Roots(root, e') == Roots(root, e)
  {
    PathsWithin(e.payload.value.files, e'.payload.value.files);
    PathsWithin(e'.payload.value.files, e.payload.value.files);
  }

  /** The entry with other contents. */
  function Refilled(e: Entry, before: Path -> Option<string>, after: Path -> Option<string>): (e': Entry)
    requires e.payload.Some?
    ensures SameShape(e, e')
  {
    var p := e.payload.value;
    e.(payload := Some(p.(
      beforeRevision := if before(p.path).Some? then Revision(before(p.path).value) else "",
      afterRevision := if after(p.path).Some? then Revision(after(p.path).value) else "",
      files := seq(|p.files|, k requires 0 <= k < |p.files| => FileChange(p.files[k].path, before(p.files[k].path), after(p.files[k].path))))))
  }

  lemma RefilledFiles(e: Entry, before: Path -> Option<string>, after: Path -> Option<string>)
    requires e.payload.Some?
    ensures forall f <- Refilled(e, before, after).payload.value.files ::
      f.before == before(f.path) && f.after == after(f.path) && (e.Bundle() ==> f.path in ReadPaths(e))
    ensures e.Bundle() ==> forall q <- ReadPaths(e) :: FileChange(q, before(q), after(q)) in Refilled(e, before, after).payload.value.files
  {
    var fs, fs' := e.payload.value.files, Refilled(e, before, after).payload.value.files;
    forall f <- fs' ensures f.before == before(f.path) && f.after == after(f.path) && (e.Bundle() ==> f.path in ReadPaths(e)) {
      var k :| 0 <= k < |fs'| && fs'[k] == f;
      assert fs[k] in fs;
    }
    if e.Bundle() {
      forall q <- ReadPaths(e) ensures FileChange(q, before(q), after(q)) in fs' {
        var k :| 0 <= k < |fs| && fs[k].path == q;
        assert fs'[k] == FileChange(q, before(q), after(q));
      }
    }
  }

  /** What a refilled page is classified as. */
  lemma RefilledPage(root: Path, e: Entry, before: Path -> Option<string>, after: Path -> Option<string>, files: Files)
    requires e.payload.Some? && Decidable(root, e) && !e.Bundle() && Readable(e, files)
    ensures var v, at := Classify(root, Refilled(e, before, after), files), Lookup(files, e.payload.value.path);
      var q := e.payload.value.path;
      v == if at == after(q) then AtAfter else if at == before(q) then AtBefore else Ambiguous
  {
    var q := e.payload.value.path;
    assert q in ReadPaths(e) && Allowed({root}, q);
    RevisionInjective(Lookup(files, q), after(q));
    RevisionInjective(Lookup(files, q), before(q));
  }

  lemma RevisionInjective(a: Option<string>, b: Option<string>)
    ensures (if a.Some? then Revision(a.value) else "") == (if b.Some? then Revision(b.value) else "") <==> a == b
  {
    if a.Some? && b.Some? && Revision(a.value) == Revision(b.value) {
      assert a.value == Revision(a.value)[7..] == Revision(b.value)[7..] == b.value;
    }
  }

  predicate Holds(files: Files, paths: set<Path>, content: Path -> Option<string>) {
    forall q <- paths :: Lookup(files, q) == content(q)
  }

  lemma ListedContents(files: Files, fs: seq<FileChange>, paths: set<Path>, before: Path -> Option<string>, after: Path -> Option<string>)
    requires forall f <- fs :: f.before == before(f.path) && f.after == after(f.path) && f.path in paths
    requires forall q <- paths :: FileChange(q, before(q), after(q)) in fs
    ensures AllBefore(files, fs) <==> Holds(files, paths, before)
    ensures AllAfter(files, fs) <==> Holds(files, paths, after)
  {
    if AllBefore(files, fs) {
      forall q <- paths ensures Lookup(files, q) == before(q) {
        assert IsBefore(files, FileChange(q, before(q), after(q)));
      }
    }
    if AllAfter(files, fs) {
      forall q <- paths ensures Lookup(files, q) == after(q) {
        assert IsAfter(files, FileChange(q, before(q), after(q)));
      }
    }
  }

  /** What a refilled bundle is classified as, once every file is known. */
  lemma RefilledBundle(root: Path, e: Entry, before: Path -> Option<string>, after: Path -> Option<string>, files: Files)
    requires e.payload.Some? && Decidable(root, e) && e.Bundle() && Readable(e, files)
    requires forall q <- ReadPaths(e) :: Lookup(files, q) == before(q) || Lookup(files, q) == after(q)
    ensures Classify(root, Refilled(e, before, after), files)
      == if Holds(files, ReadPaths(e), before) then AtBefore else if Holds(files, ReadPaths(e), after) then AtAfter else Mixed
  {
    var e' := Refilled(e, before, after);
    SameReads(root, e, e');
    RefilledFiles(e, before, after);
    var fs' := e'.payload.value.files;
    ListedContents(files, fs', ReadPaths(e), before, after);
    forall f <- fs' ensures Allowed(Roots(root, e'), f.path) && (IsBefore(files, f) || IsAfter(files, f)) {
      assert f.path in ReadPaths(e);
    }
    assert AllKnown(Roots(root, e'), files, fs');
  }

  lemma RefilledNotBefore(root: Path, e: Entry, before: Path -> Option<string>, after: Path -> Option<string>, files: Files)
    requires e.payload.Some? && e.Bundle() && !Holds(files, ReadPaths(e), before)
    ensures Classify(root, Refilled(e, before, after), files) != AtBefore
  {
    var e' := Refilled(e, before, after);
    SameReads(root, e, e');
    RefilledFiles(e, before, after);
    ListedContents(files, e'.payload.value.files, ReadPaths(e), before, after);
  }

  function Nothing(): Path -> Option<string> { (q: Path) => None }

  function Contents(files: Files): Path -> Option<string> { (q: Path) => Lookup(files, q) }

  /** The entry that expects just these files tells any change that concerns it. */
  lemma WatchNotices(root: Path, e: Entry, files: Files, files': Files, q: Path)
    requires e.payload.Some? && Decidable(root, e) && Readable(e, files) && q in ReadPaths(e)
    requires Lookup(files', q) != Lookup(files, q) || Blocked(files', q)
    ensures var e' := Refilled(e, Contents(files), Nothing());
      CleanupClear(e') && Classify(root, e', files') != Classify(root, e', files)
  {
    var e' := Refilled(e, Contents(files), Nothing());
    SameReads(root, e, e');
    RefilledFiles(e, Contents(files), Nothing());
    assert PresentAfter(e') == {};
    if e.Bundle() {
      RefilledBundle(root, e, Contents(files), Nothing(), files);
      if !Blocked(files', q) {
        RefilledNotBefore(root, e, Contents(files), Nothing(), files');
      }
    } else {
      RefilledPage(root, e, Contents(files), Nothing(), files);
      if Readable(e, files') {
        RefilledPage(root, e, Contents(files), Nothing(), files');
      }
    }
  }

  /** The files of the mixture, and the before and after states that make it one. */
  function MixtureFiles(pj: Path, covered: bool): Files {
    if covered then map[pj := "y"] else map[]
  }

  function MixtureBefore(pi: Path, pj: Path, covered: bool): Path -> Option<string> {
    (q: Path) => if q == pi then Some("0") else if q == pj && covered then Some("y") else None
  }

  function MixtureAfter(pj: Path, covered: bool): Path -> Option<string> {
    (q: Path) => if q == pj && !covered then Some("x") else None
  }

  /** The disturbing bundle: file `i` written, file `j` not. */
  function Mixture(d: Entry, i: nat, j: nat): (d': Entry)
    requires d.payload.Some? && i < |d.payload.value.files| && j < |d.payload.value.files|
    ensures SameShape(d, d')
  {
    var fs := d.payload.value.files;
    var covered := Covered(d.payload.value.cleanup, fs[j].path);
    Refilled(d, MixtureBefore(fs[i].path, fs[j].path, covered), MixtureAfter(fs[j].path, covered))
  }

  lemma MixtureReadable(root: Path, d: Entry, i: nat, j: nat, covered: bool)
    requires d.payload.Some? && NonNested(d) && d.Bundle()
    requires i < |d.payload.value.files| && j < |d.payload.value.files| && i != j
    ensures var fs := d.payload.value.files;
      && fs[i].path in ReadPaths(d) && fs[j].path in ReadPaths(d) && fs[i].path != fs[j].path
      && Readable(d, MixtureFiles(fs[j].path, covered))
  {
    var fs := d.payload.value.files;
    assert fs[i] in fs && fs[j] in fs;
    assert i < j || j < i;
    forall q <- ReadPaths(d) ensures !Blocked(MixtureFiles(fs[j].path, covered), q) {
      if q != fs[j].path {
        Apart(fs, j, q);
      }
    }
  }

  lemma MixtureIsMixed(root: Path, d: Entry, i: nat, j: nat)
    requires d.payload.Some? && Decidable(root, d) && NonNested(d) && d.Bundle()
    requires i < |d.payload.value.files| && j < |d.payload.value.files| && i != j
    ensures var pj := d.payload.value.files[j].path;
      Classify(root, Mixture(d, i, j), MixtureFiles(pj, Covered(d.payload.value.cleanup, pj))) == Mixed
  {
    var pi, pj := d.payload.value.files[i].path, d.payload.value.files[j].path;
    var covered := Covered(d.payload.value.cleanup, pj);
    var before, after, files := MixtureBefore(pi, pj, covered), MixtureAfter(pj, covered), MixtureFiles(pj, covered);
    MixtureReadable(root, d, i, j, covered);
    assert Lookup(files, pi) != before(pi) && Lookup(files, pj) != after(pj);
    RefilledBundle(root, d, before, after, files);
  }

  lemma MixtureClear(d: Entry, i: nat, j: nat)
    requires d.payload.Some? && d.Bundle() && i < |d.payload.value.files| && j < |d.payload.value.files|
    ensures CleanupClear(Mixture(d, i, j))
  {
    var pi, pj := d.payload.value.files[i].path, d.payload.value.files[j].path;
    var covered := Covered(d.payload.value.cleanup, pj);
    RefilledFiles(d, MixtureBefore(pi, pj, covered), MixtureAfter(pj, covered));
    assert PresentAfter(Mixture(d, i, j)) <= if covered then {} else {pj};
  }

  lemma MixtureWrittenBack(root: Path, d: Entry, i: nat, j: nat)
    requires d.payload.Some? && Decidable(root, d) && NonNested(d) && d.Bundle()
    requires i < |d.payload.value.files| && j < |d.payload.value.files| && i != j
    ensures var fs := d.payload.value.files;
      var files := MixtureFiles(fs[j].path, Covered(d.payload.value.cleanup, fs[j].path));
      var files' := Recover(root, Mixture(d, i, j), files, Faults({}, |fs|, {}, 0)).1;
      fs[i].path in files' && fs[i].path !in files
  {
    var fs, d' := d.payload.value.files, Mixture(d, i, j);
    var files := MixtureFiles(fs[j].path, Covered(d.payload.value.cleanup, fs[j].path));
    MixtureReadable(root, d, i, j, Covered(d.payload.value.cleanup, fs[j].path));
    MixtureIsMixed(root, d, i, j);
    WritesBack(root, d', files, i);
    assert d'.payload.value.files[i].path == fs[i].path && d'.payload.value.files[i].before == Some("0");
  }

  lemma WritesBack(root: Path, d: Entry, files: Files, k: nat)
    requires d.payload.Some? && d.Bundle() && NonNested(d) && Classify(root, d, files) == Mixed && k < |d.payload.value.files|
    ensures var fs := d.payload.value.files;
      Lookup(Recover(root, d, files, Faults({}, |fs|, {}, 0)).1, fs[k].path) == fs[k].before
  {
    var fs := d.payload.value.files;
    assert forall f <- fs :: f.path in ReadPaths(d);
    WrittenBack(files, fs, k);
  }

  lemma WrittenBack(files: Files, fs: seq<FileChange>, k: nat)
    requires Unrelated(fs) && (forall f <- fs :: !Blocked(files, f.path)) && k < |fs|
    ensures Lookup(RollBack(files, fs, |fs|).1, fs[k].path) == fs[k].before
  {
    RollBackEffect(files, fs, |fs|);
  }

  lemma MixtureLeavesReadable(e: Entry, d: Entry, i: nat, j: nat, q: Path)
    requires e.payload.Some? && d.payload.Some?
    requires i < |d.payload.value.files| && j < |d.payload.value.files| && WriteBackReaches(e, d, i, j, q)
    ensures var pj := d.payload.value.files[j].path;
      Readable(e, MixtureFiles(pj, Covered(d.payload.value.cleanup, pj)))
  {
    var pj := d.payload.value.files[j].path;
    forall p <- ReadPaths(e) ensures !Blocked(MixtureFiles(pj, Covered(d.payload.value.cleanup, pj)), p) {
      assert Comparable(p, pj) <==> Comparable(pj, p);
    }
  }

  lemma DisturbedByWriteBack(root: Path, e: Entry, d: Entry, i: nat, j: nat, q: Path)
    requires e.payload.Some? && d.payload.Some? && Decidable(root, e) && Decidable(root, d)
    requires NonNested(e) && NonNested(d) && d.Bundle()
    requires i < |d.payload.value.files| && j < |d.payload.value.files| && WriteBackReaches(e, d, i, j, q)
    ensures Disturbable(root, e, d)
  {
    var pi, pj := d.payload.value.files[i].path, d.payload.value.files[j].path;
    var files := MixtureFiles(pj, Covered(d.payload.value.cleanup, pj));
    var faults := Faults({}, |d.payload.value.files|, {}, 0);
    var files' := Recover(root, Mixture(d, i, j), files, faults).1;
    MixtureClear(d, i, j);
    MixtureWrittenBack(root, d, i, j);
    MixtureLeavesReadable(e, d, i, j, q);
    assert q != pi ==> Blocked(files', q);
    WatchNotices(root, e, files, files', q);
    assert Disturbs(root, e, d, Refilled(e, Contents(files), Nothing()), Mixture(d, i, j), files, faults);
  }

  lemma {:induction false} LongerName(used: set<string>) returns (s: string)
    ensures s !in used && forall u <- used :: |u| < |s|
    decreases |used|
  {
    if used == {} {
      s := "";
    } else {
      var u :| u in used;
      var t := LongerName(used - {u});
      s := if |u| < |t| then t else u + "0";
    }
  }

  /** A name below `top` that none of the paths reaches or goes through. */
  lemma NewBelow(top: Path, paths: set<Path>) returns (b: Path)
    requires top.Abs? && forall p <- paths :: !Within(p, top)
    ensures b != top && Within(top, b) && forall p <- paths :: !Comparable(p, b)
  {
    var n := |top.parts|;
    var s := LongerName(set p <- paths | p.Abs? && |p.parts| > n :: p.parts[n]);
    b := Abs(top.parts + [s]);
    forall p <- paths ensures !Comparable(p, b) {
      NewChild(top, s, p);
    }
  }

  lemma NewChild(top: Path, s: string, p: Path)
    requires top.Abs? && !Within(p, top) && (p.Abs? && |p.parts| > |top.parts| ==> p.parts[|top.parts|] != s)
    ensures !Comparable(p, Abs(top.parts + [s]))
  {
    var parts := top.parts + [s];
    assert parts[|top.parts|] == s;
    if p.Abs? && |p.parts| <= |top.parts| {
      assert parts[..|p.parts|] == top.parts[..|p.parts|];
    }
  }

  lemma DisturbedByCleanup(root: Path, e: Entry, d: Entry, k: nat, q: Path)
    requires e.payload.Some? && d.payload.Some? && Decidable(root, e) && Decidable(root, d)
    requires k < BeforeStray(Roots(root, d), d.payload.value.cleanup) && CleanupReaches(e, d, k, q)
    ensures Disturbable(root, e, d)
  {
    var p := d.payload.value;
    var c := p.cleanup[k];
    var b := NewBelow(Deeper(c, q), ReadPaths(d));
    WithinTransitive(c, Deeper(c, q), b);
    WithinTransitive(q, Deeper(c, q), b);
    var files: Files := map[b := "1"];
    var full: Path -> Option<string> := (x: Path) => Some("z");
    var d', e' := Refilled(d, full, Nothing()), Refilled(e, Nothing(), Nothing());
    var faults := Faults({}, |p.cleanup|, {}, 0);
    EmptiedIsLanded(root, d, files, full);
    CleanedOut(Roots(root, d), p.cleanup, k, b, faults);
    assert Recover(root, d', files, faults).1 == map[];
    SameReads(root, e, e');
    assert q != b && Blocked(files, q);
    EmptyIsDecided(root, e);
    assert Disturbs(root, e, d, e', d', files, faults);
  }

  /** A cleanup path before the first stray one removes the only file there is. */
  lemma CleanedOut(roots: set<Path>, cleanup: seq<Path>, k: nat, b: Path, faults: Faults)
    requires k < BeforeStray(roots, cleanup) && Within(cleanup[k], b)
    ensures CleanUp(roots, map[b := "1"], cleanup, faults, |cleanup|).1 == map[]
  {
    var files: Files := map[b := "1"];
    CleanUpExactly(roots, files, cleanup, faults, |cleanup|);
    var n := Least(|cleanup|, BeforeStray(roots, cleanup));
    assert cleanup[..n][k] == cleanup[k] && Covered(cleanup[..n], b);
    var files' := CleanUp(roots, files, cleanup, faults, |cleanup|).1;
    forall x ensures x !in files' {
      assert Lookup(files', x) == None;
    }
  }

  lemma EmptiedIsLanded(root: Path, d: Entry, files: Files, full: Path -> Option<string>)
    requires d.payload.Some? && Decidable(root, d) && (forall x :: full(x).Some?)
    requires forall p <- ReadPaths(d), b <- files :: !Comparable(p, b)
    ensures var d' := Refilled(d, full, Nothing());
      Classify(root, d', files) == AtAfter && CleanupClear(d') && ReadPaths(d') == ReadPaths(d) && Roots(root, d') == Roots(root, d)
  {
    var d' := Refilled(d, full, Nothing());
    SameReads(root, d, d');
    RefilledFiles(d, full, Nothing());
    assert PresentAfter(d') == {};
    forall p <- ReadPaths(d) ensures p !in files {
      assert Allowed(Roots(root, d), p) && root in Roots(root, d) && Within(root, p);
      assert Comparable(p, p);
    }
    if d.Bundle() {
      assert d.payload.value.files[0] in d.payload.value.files && d.payload.value.files[0].path in ReadPaths(d);
      RefilledBundle(root, d, full, Nothing(), files);
    } else {
      RefilledPage(root, d, full, Nothing(), files);
    }
  }

  lemma EmptyIsDecided(root: Path, e: Entry)
    requires e.payload.Some? && Decidable(root, e)
    ensures Classify(root, Refilled(e, Nothing(), Nothing()), map[]) != Ambiguous
    ensures CleanupClear(Refilled(e, Nothing(), Nothing()))
  {
    SameReads(root, e, Refilled(e, Nothing(), Nothing()));
    RefilledFiles(e, Nothing(), Nothing());
    assert PresentAfter(Refilled(e, Nothing(), Nothing())) == {};
    if e.Bundle() {
      RefilledBundle(root, e, Nothing(), Nothing(), map[]);
    } else {
      RefilledPage(root, e, Nothing(), Nothing(), map[]);
    }
  }

  /** With these contents, files and faults, recovering one entry changes the verdict on
      the other. */
  ghost predicate Disturbs(root: Path, e: Entry, d: Entry, e': Entry, d': Entry, files: Files, faults: Faults)
    requires e.payload.Some? && d.payload.Some?
  {
    && SameShape(e, e') && SameShape(d, d') && CleanupClear(e') && CleanupClear(d')
    && Classify(root, e', Recover(root, d', files, faults).1) != Classify(root, e', files)
  }

  ghost predicate Disturbable(root: Path, e: Entry, d: Entry)
    requires e.payload.Some? && d.payload.Some?
  {
    exists e', d', files, faults :: Disturbs(root, e, d, e', d', files, faults)
  }

  lemma MeddlesByShape(root: Path, e: Entry, d: Entry, e': Entry, d': Entry)
    requires e.payload.Some? && d.payload.Some? && SameShape(e, e') && SameShape(d, d')
    ensures Meddles(root, e', d') ==> Meddles(root, e, d)
    ensures NonNested(d) ==> NonNested(d')
  {
    SameReads(root, e, e');
    SameReads(root, d, d');
    if Meddles(root, e', d') {
      if d'.Bundle() && ByWriteBack(e', d') {
        var n := |d'.payload.value.files|;
        var i: nat, j: nat, q :| q in ReadPaths(e') && i < n && j < n && WriteBackReaches(e', d', i, j, q);
        assert WriteBackReaches(e, d, i, j, q);
      } else {
        var stray := BeforeStray(Roots(root, d'), d'.payload.value.cleanup);
        var k: nat, q :| q in ReadPaths(e') && k < stray && CleanupReaches(e', d', k, q);
        assert CleanupReaches(e, d, k, q);
      }
    }
  }

  /** Exactly: two entries meddle if and only if, over these paths, some contents, files
      and faults let the recovery of the one change what is decided about the other. */
  lemma MeddlingIsExact(root: Path, e: Entry, d: Entry)
    requires e.payload.Some? && d.payload.Some? && NonNested(e) && NonNested(d)
    ensures Disturbable(root, e, d) <==> Meddles(root, e, d)
  {
    if Disturbable(root, e, d) {
      var e', d', files, faults :| Disturbs(root, e, d, e', d', files, faults);
      MeddlesByShape(root, e, d, e', d');
      if !Meddles(root, e, d) {
        Undisturbed(root, e', d', files, faults);
      }
    }
    if Meddles(root, e, d) {
      if d.Bundle() && ByWriteBack(e, d) {
        var n := |d.payload.value.files|;
        var i: nat, j: nat, q :| q in ReadPaths(e) && i < n && j < n && WriteBackReaches(e, d, i, j, q);
        DisturbedByWriteBack(root, e, d, i, j, q);
      } else {
        var stray := BeforeStray(Roots(root, d), d.payload.value.cleanup);
        var k: nat, q :| q in ReadPaths(e) && k < stray && CleanupReaches(e, d, k, q);
        DisturbedByCleanup(root, e, d, k, q);
      }
    }
  }

  /** Recovering a page that has nothing to clean up changes no file, so page writes never
      meddle, however many of them are pending on one path. */
  lemma PageWritesNeverMeddle(root: Path, e: Entry, d: Entry)
    requires e.payload.Some? && d.payload.Some? && !d.Bundle() && d.payload.value.cleanup == []
    ensures !Meddles(root, e, d)
  {
  }

  /** Two attempts at the same work: only the receipts may differ. */
  predicate SameWork(e: Entry, d: Entry)
    requires e.payload.Some? && d.payload.Some?
  {
    e.kind == d.kind && e.payload.value.(receipt := None) == d.payload.value.(receipt := None)
  }

  /** A retry of the same work moves the other attempt as it moves itself. */
  lemma RetryMovesAlike(root: Path, e: Entry, d: Entry, files: Files, faults: Faults)
    requires e.payload.Some? && d.payload.Some? && SameWork(e, d) && NonNested(d) && CleanupClear(d)
    ensures Progress(Classify(root, e, files), Classify(root, e, Recover(root, d, files, faults).1))
  {
    RecoverStep(root, d, files, faults);
    assert forall fs: Files :: Classify(root, e, fs) == Classify(root, d, fs);
  }

  /** A page update from `a` to `b` is pending, and a bundle that takes the same page from
      `b` to `c` is half written: the update is undecided at `c`, and rolling the bundle
      back makes it look landed. */
  lemma OverlapBreaks(root: Path, page: Path, other: Path, a: string, b: string, c: string, receipt: Option<Receipt>)
    requires Within(root, page) && Within(root, other) && page != other && !Comparable(page, other)
    requires a != c && b != c
    ensures var update := Entry("content_write", "in_progress", Some(Payload(page, Revision(a), Revision(b), NoPath, [], [], receipt)), 0);
      var bundle := Entry("bundle_write", "in_progress",
        Some(Payload(NoPath, "", "", root, [FileChange(page, Some(b), Some(c)), FileChange(other, Some(b), Some(c))], [], None)), 1);
      var files: Files := map[page := c, other := b];
      && Classify(root, update, files) == Ambiguous
      && Classify(root, update, Recover(root, bundle, files, Faults({}, 2, {}, 0)).1) == AtAfter
      && Meddles(root, update, bundle)
  {
    var update := Entry("content_write", "in_progress", Some(Payload(page, Revision(a), Revision(b), NoPath, [], [], receipt)), 0);
    var fs := [FileChange(page, Some(b), Some(c)), FileChange(other, Some(b), Some(c))];
    var bundle := Entry("bundle_write", "in_progress", Some(Payload(NoPath, "", "", root, fs, [], None)), 1);
    var files: Files := map[page := c, other := b];
    RevisionInjective(Some(c), Some(a));
    RevisionInjective(Some(c), Some(b));
    assert ReadPaths(bundle) == {page, other} && Roots(root, bundle) == {root};
    assert forall q <- {page, other} :: !Blocked(files, q);
    assert fs[0] in fs && fs[1] in fs && !IsBefore(files, fs[0]) && !IsAfter(files, fs[1]);
    assert AllKnown({root}, files, fs);
    assert Classify(root, bundle, files) == Mixed;
    WritesBack(root, bundle, files, 0);
    RollBackKeepsReadable(bundle, files, 2);
    var files' := Recover(root, bundle, files, Faults({}, 2, {}, 0)).1;
    assert Lookup(files', page) == Some(b) && !Blocked(files', page);
    if !Meddles(root, update, bundle) {
      assert CleanupClear(bundle);
      Undisturbed(root, update, bundle, files, Faults({}, 2, {}, 0));
    }
  }
}
