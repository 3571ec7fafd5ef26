/** What can be at the site root, at every step of every build, crashes included. */
module OutputRuns {
  import opened Common
  import opened OutputSwap

  // ----- traces -----

  ghost predicate Extends(w: World, w': World) {
    |w.past| <= |w'.past| && w'.past[..|w.past|] == w.past
  }

  /** The two disks agree on every name outside `touched`. */
  ghost predicate Agree(d: Disk, e: Disk, touched: set<string>) {
    forall n :: n !in touched ==> Lookup(d, n) == Lookup(e, n)
  }

  /** Every state since `w`, and the last one, differ from it on `touched` only. */
  ghost predicate Quiet(w: World, w': World, touched: set<string>) {
    && Extends(w, w')
    && Agree(w'.disk, w.disk, touched)
    && (forall i | |w.past| <= i < |w'.past| :: Agree(w'.past[i], w.disk, touched))
  }

  lemma WriteIsQuiet(w: World, d: Disk, touched: set<string>)
    requires Agree(d, w.disk, touched)
    ensures Quiet(w, Write(w, d), touched)
  {
  }

  lemma QuietChain(w: World, w1: World, w2: World, touched: set<string>)
    requires Quiet(w, w1, touched) && Quiet(w1, w2, touched)
    ensures Quiet(w, w2, touched)
  {
    forall i | |w.past| <= i < |w2.past|
      ensures Agree(w2.past[i], w.disk, touched)
    {
      if i < |w1.past| {
        assert w2.past[i] == w2.past[..|w1.past|][i] == w1.past[i];
      }
    }
    assert w2.past[..|w.past|] == w2.past[..|w1.past|][..|w.past|];
  }

  lemma {:induction false} DeleteIsQuiet(w: World, name: string, order: seq<string>)
    requires name in w.disk
    ensures Quiet(w, Delete(w, name, order), {name})
    decreases |order|
  {
    if order != [] {
      var w1 := Write(w, w.disk[name := w.disk[name] - {order[0]}]);
      DeleteIsQuiet(w1, name, order[1..]);
      QuietChain(w, w1, Delete(w, name, order), {name});
    }
  }

  /** A removal touches one name, which is gone exactly when it reports success. */
  lemma RemoveAllIsQuiet(w: World, name: string, r: Removal)
    ensures var (w', ok) := RemoveAll(w, name, r);
      Quiet(w, w', {name}) && (ok <==> name !in w'.disk)
  {
    if name in w.disk {
      var w1 := Delete(w, name, r.order);
      DeleteIsQuiet(w, name, r.order);
      var w2 := Write(w1, w1.disk - {name});
      WriteIsQuiet(w1, w2.disk, {name});
      QuietChain(w, w1, w2, {name});
    }
  }

  lemma {:induction false} RenderIsQuiet(w: World, dir: string, pages: seq<(string, Bytes)>)
    requires dir in w.disk
    ensures Quiet(w, Render(w, dir, pages), {dir})
    ensures w.disk[dir] == map[] ==> Render(w, dir, pages).disk[dir] == Rendered(pages)
    decreases |pages|
  {
    if pages != [] {
      var w1 := Render(w, dir, pages[..|pages|-1]);
      RenderIsQuiet(w, dir, pages[..|pages|-1]);
      WriteIsQuiet(w1, Render(w, dir, pages).disk, {dir});
      QuietChain(w, w1, Render(w, dir, pages), {dir});
    }
  }

  // ----- one swap -----

  /** The tree served before is untouched: still at the site root, or whole at the
      backup while the root is absent. */
  ghost predicate Keeps(before: Disk, d: Disk, root: string, backup: string) {
    if root in before then
      Lookup(d, root) == Some(before[root]) || (root !in d && Lookup(d, backup) == Some(before[root]))
    else root !in d
  }

  /** `cut` is where the new tree takes over: everything earlier keeps the old tree,
      everything later serves the whole new one, and nothing else on the disk moves. */
  ghost predicate Cut(w: World, w': World, root: string, backup: string, touched: set<string>, tree: Tree, cut: nat) {
    && Extends(w, w')
    && |w.past| <= cut <= |w'.past|
    && (forall i | |w.past| <= i < |w'.past| :: Agree(w'.past[i], w.disk, touched + {root, backup}))
    && (forall i | |w.past| <= i < cut :: Keeps(w.disk, w'.past[i], root, backup))
    && (forall i | cut <= i < |w'.past| :: Lookup(w'.past[i], root) == Some(tree))
    && Agree(w'.disk, w.disk, touched + {root, backup})
    && (if cut < |w'.past| then Lookup(w'.disk, root) == Some(tree) else Keeps(w.disk, w'.disk, root, backup))
  }

  /** Quiet steps before. */
  lemma CutAfter(w: World, w1: World, w2: World, root: string, backup: string, touched: set<string>, tree: Tree, cut: nat)
    requires Quiet(w, w1, touched) && root !in touched && Cut(w1, w2, root, backup, touched, tree, cut)
    requires backup !in w1.disk
    ensures Cut(w, w2, root, backup, touched, tree, cut)
  {
    assert Lookup(w1.disk, root) == Lookup(w.disk, root);
    forall i | |w.past| <= i < |w2.past|
      ensures Agree(w2.past[i], w.disk, touched + {root, backup})
      ensures i < cut ==> Keeps(w.disk, w2.past[i], root, backup)
    {
      if i < |w1.past| {
        assert w2.past[i] == w2.past[..|w1.past|][i] == w1.past[i];
        assert Lookup(w1.past[i], root) == Lookup(w.disk, root);
      }
    }
    assert w2.past[..|w.past|] == w2.past[..|w1.past|][..|w.past|];
  }

  /** Quiet steps afterwards, on names other than the two that matter by then. */
  lemma CutBefore(w: World, w1: World, w2: World, root: string, backup: string, touched: set<string>, quiet: set<string>, tree: Tree, cut: nat)
    requires Cut(w, w1, root, backup, touched, tree, cut)
    requires Quiet(w1, w2, quiet) && quiet <= touched + {backup} && root !in quiet
    requires backup in quiet ==> cut < |w1.past|
    requires cut == |w1.past| ==> |w2.past| == |w1.past| || backup !in quiet
    ensures Cut(w, w2, root, backup, touched, tree, if cut < |w1.past| then cut else |w2.past|)
  {
    assert Lookup(w2.disk, root) == Lookup(w1.disk, root);
    forall i | |w.past| <= i < |w2.past|
      ensures Agree(w2.past[i], w.disk, touched + {root, backup})
      ensures if cut <= i && cut < |w1.past| then Lookup(w2.past[i], root) == Some(tree) else Keeps(w.disk, w2.past[i], root, backup)
    {
      if i < |w1.past| {
        assert w2.past[i] == w2.past[..|w1.past|][i] == w1.past[i];
      } else {
        assert Agree(w2.past[i], w1.disk, quiet);
        assert Lookup(w2.past[i], root) == Lookup(w1.disk, root);
        assert backup !in quiet ==> Lookup(w2.past[i], backup) == Lookup(w1.disk, backup);
      }
    }
    assert w2.past[..|w.past|] == w2.past[..|w1.past|][..|w.past|];
  }

  /** The swap reaches the install, and then the install and the restore both fail. */
  predicate LosesRoot(before: Disk, root: string, f: Faults) {
    root in before && !f.mkdirFails && !f.removeFails && !f.inspectFails && !f.stageFails && f.installFails && f.restoreFails
  }

  predicate Fresh(w: World, root: string, temp: string, backup: string) {
    root != temp && root != backup && temp != backup && backup !in w.disk
  }

  lemma InstallIsAtomic(w: World, temp: string, root: string, before: World, f: Faults) returns (cut: nat)
    requires root != temp && root != f.backup && temp != f.backup && temp in w.disk
    requires Cut(before, w, root, f.backup, {temp}, w.disk[temp], |w.past|)
    requires root !in w.disk
    requires root in before.disk <==> f.backup in w.disk
    ensures var (w', r) := Install(w, temp, root, root in before.disk, f);
      && Cut(before, w', root, f.backup, {temp}, w.disk[temp], cut)
      && (r.Swapped? <==> cut < |w'.past|) && (r.Swapped? <==> !f.installFails)
      && (r.Failed? ==> temp in w'.disk && w'.disk[temp] == w.disk[temp])
      && (r.Swapped? ==> temp !in w'.disk && (f.backup in w'.disk <==> r.warning))
      && (r.Failed? ==> (root in w'.disk <==> root in before.disk && !f.restoreFails))
  {
    var tree := w.disk[temp];
    var (w1, installed) := Rename(w, temp, root, f.installFails);
    var (w', r) := Install(w, temp, root, root in before.disk, f);
    if !installed {
      RestoreKeeps(w, temp, root, before, f);
      cut := |w'.past|;
    } else {
      cut := |w.past|;
      InstalledCut(w, temp, root, before, f);
      if root in before.disk {
        RemoveAllIsQuiet(w1, f.backup, f.cleanup);
        CutBefore(before, w1, w', root, f.backup, {temp}, {f.backup}, tree, cut);
        assert Lookup(w'.disk, temp) == Lookup(w1.disk, temp);
      }
    }
  }

  /** The rename that installs the new tree. */
  lemma InstalledCut(w: World, temp: string, root: string, before: World, f: Faults)
    requires root != temp && root != f.backup && temp != f.backup && temp in w.disk && root !in w.disk
    requires Cut(before, w, root, f.backup, {temp}, w.disk[temp], |w.past|)
    ensures var w1 := Rename(w, temp, root, false).0;
      && Cut(before, w1, root, f.backup, {temp}, w.disk[temp], |w.past|)
      && |w1.past| == |w.past| + 1 && temp !in w1.disk && Lookup(w1.disk, f.backup) == Lookup(w.disk, f.backup)
  {
  }

  /** The install has failed: the old tree is put back, or stays at the backup. */
  lemma RestoreKeeps(w: World, temp: string, root: string, before: World, f: Faults)
    requires root != temp && root != f.backup && temp != f.backup && temp in w.disk && root !in w.disk
    requires Cut(before, w, root, f.backup, {temp}, w.disk[temp], |w.past|)
    requires root in before.disk <==> f.backup in w.disk
    ensures var w' := if root in before.disk then Rename(w, f.backup, root, f.restoreFails).0 else w;
      && Cut(before, w', root, f.backup, {temp}, w.disk[temp], |w'.past|)
      && Lookup(w'.disk, temp) == Lookup(w.disk, temp)
      && (root in w'.disk <==> root in before.disk && !f.restoreFails)
  {
  }

  /** Reserving the backup name and staging the old tree under it. */
  lemma StagingKeeps(w: World, temp: string, root: string, f: Faults)
    requires Fresh(w, root, temp, f.backup) && temp in w.disk && !f.mkdirFails
    ensures var w1 := Write(w, w.disk[f.backup := map[]]);
      var w2 := Write(w1, w1.disk - {f.backup});
      && w2.disk == w.disk
      && Cut(w, w1, root, f.backup, {temp}, w.disk[temp], |w1.past|)
      && Cut(w, w2, root, f.backup, {temp}, w.disk[temp], |w2.past|)
      && (root in w.disk && !f.stageFails ==>
            var w3 := Rename(w2, root, f.backup, false).0;
            Cut(w, w3, root, f.backup, {temp}, w.disk[temp], |w3.past|) && root !in w3.disk && f.backup in w3.disk && w3.disk[temp] == w.disk[temp])
  {
    var w1 := Write(w, w.disk[f.backup := map[]]);
    var w2 := Write(w1, w1.disk - {f.backup});
    assert w2.disk == w.disk;
  }

  /** At every step of a swap, whichever renames fail, the site root is the old tree,
      absent with the old tree whole at the backup, or the new tree; only a swap that
      reports success shows the new one, and it does so from one step on. A failed swap
      leaves the old tree at the root unless both the install and the restore failed. */
  lemma SwapIsAtomic(w: World, temp: string, root: string, f: Faults)
    requires Fresh(w, root, temp, f.backup) && temp in w.disk
    ensures var (w', r) := Swap(w, temp, root, f);
      && (exists cut: nat :: Cut(w, w', root, f.backup, {temp}, w.disk[temp], cut) && (r.Swapped? <==> cut < |w'.past|))
      && (r.Swapped? ==> temp !in w'.disk && (f.backup in w'.disk <==> r.warning))
      && (r.Failed? ==> Lookup(w'.disk, temp) == Lookup(w.disk, temp))
      && (r.Failed? ==> (Lookup(w'.disk, root) == Lookup(w.disk, root) <==> !LosesRoot(w.disk, root, f)))
      && (r.Failed? ==> (root in w.disk && root !in w'.disk <==> LosesRoot(w.disk, root, f)))
      && (r.Swapped? <==> !f.mkdirFails && !f.removeFails && !f.inspectFails && (root in w.disk ==> !f.stageFails) && !f.installFails)
  {
    var tree := w.disk[temp];
    var (w', r) := Swap(w, temp, root, f);
    if f.mkdirFails {
      assert Cut(w, w', root, f.backup, {temp}, tree, |w'.past|);
    } else {
      StagingKeeps(w, temp, root, f);
      var w2 := Write(Write(w, w.disk[f.backup := map[]]), w.disk[f.backup := map[]] - {f.backup});
      if f.removeFails || f.inspectFails || (root in w.disk && f.stageFails) {
        assert Cut(w, w', root, f.backup, {temp}, tree, |w'.past|);
      } else {
        var w3 := if root in w.disk then Rename(w2, root, f.backup, false).0 else w2;
        var cut := InstallIsAtomic(w3, temp, root, w, f);
      }
    }
  }

  // ----- one build -----

  /** Everything before the swap goes well, the source revision included. */
  predicate Ready(b: Build) {
    && b.hugoRoot != "" && !b.locked && Admit(b).Some? && !b.mkdirFails && !b.cacheFails
    && !b.callbackFails && !b.hugoFails && Stable(Admit(b).value, b.revisionAfter)
  }

  predicate NewNames(w: World, root: string, b: Build) {
    Fresh(w, root, b.buildDir, b.swap.backup) && b.buildDir !in w.disk
  }

  /** What Execute does up to the swap, for a build that gets there. */
  function BeforeSwap(w: World, b: Build): World {
    Render(Write(w, w.disk[b.buildDir := map[]]), b.buildDir, b.pages)
  }

  lemma BeforeSwapIsQuiet(w: World, b: Build)
    ensures Quiet(w, BeforeSwap(w, b), {b.buildDir})
    ensures b.buildDir in BeforeSwap(w, b).disk && BeforeSwap(w, b).disk[b.buildDir] == Rendered(b.pages)
  {
    var w1 := Write(w, w.disk[b.buildDir := map[]]);
    WriteIsQuiet(w, w1.disk, {b.buildDir});
    RenderIsQuiet(w1, b.buildDir, b.pages);
    QuietChain(w, w1, BeforeSwap(w, b), {b.buildDir});
  }

  lemma QuietRemove(w: World, w1: World, name: string, r: Removal)
    requires Quiet(w, w1, {name})
    ensures Quiet(w, RemoveAll(w1, name, r).0, {name})
  {
    RemoveAllIsQuiet(w1, name, r);
    QuietChain(w, w1, RemoveAll(w1, name, r).0, {name});
  }

  /** A build that is not ready never reaches the swap: at no step does anything but its
      own build directory differ from what was there before. */
  lemma UnreadyTouchesNothing(w: World, root: string, b: Build)
    requires !Ready(b)
    ensures var (w', r) := Execute(w, root, b);
      r.Failed? && Quiet(w, w', {b.buildDir})
  {
    var w1 := Write(w, w.disk[b.buildDir := map[]]);
    WriteIsQuiet(w, w1.disk, {b.buildDir});
    QuietRemove(w, w1, b.buildDir, b.discard);
    BeforeSwapIsQuiet(w, b);
    QuietRemove(w, BeforeSwap(w, b), b.buildDir, b.discard);
  }

  /** In particular when the source revision moved while Hugo ran, or could not be read
      again. */
  lemma MovedSourceIsNotPublished(w: World, root: string, b: Build)
    requires !Blank(b.contentRoot) && b.revisionBefore != Some("") && b.revisionAfter != b.revisionBefore
    ensures var (w', r) := Execute(w, root, b);
      && r.Failed? && Quiet(w, w', {b.buildDir})
      && (root != b.buildDir ==> forall i | |w.past| <= i < |w'.past| :: Lookup(w'.past[i], root) == Lookup(w.disk, root))
  {
    UnreadyTouchesNothing(w, root, b);
    var w' := Execute(w, root, b).0;
    forall i | |w.past| <= i < |w'.past|
      ensures Agree(w'.past[i], w.disk, {b.buildDir})
    {
    }
  }

  lemma QuietIsCut(w: World, w': World, root: string, backup: string, dir: string, tree: Tree)
    requires Quiet(w, w', {dir}) && root != dir
    ensures Cut(w, w', root, backup, {dir}, tree, |w'.past|)
  {
    forall i | |w.past| <= i < |w'.past|
      ensures Keeps(w.disk, w'.past[i], root, backup)
    {
      assert Lookup(w'.past[i], root) == Lookup(w.disk, root);
    }
    assert Lookup(w'.disk, root) == Lookup(w.disk, root);
  }

  lemma ReadyBuild(w: World, root: string, b: Build) returns (cut: nat)
    requires Ready(b) && NewNames(w, root, b)
    ensures var (w', r) := Execute(w, root, b);
      && Cut(w, w', root, b.swap.backup, {b.buildDir}, Rendered(b.pages), cut)
      && (r.Swapped? <==> cut < |w'.past|)
      && (r.Swapped? ==> b.buildDir !in w'.disk)
      && (r.Failed? ==> (Lookup(w'.disk, root) == Lookup(w.disk, root) <==> !LosesRoot(w.disk, root, b.swap)))
      && (r.Swapped? <==> SwapsCleanly(w.disk, root, b.swap))
  {
    var w1 := BeforeSwap(w, b);
    BeforeSwapIsQuiet(w, b);
    assert Lookup(w1.disk, root) == Lookup(w.disk, root) && Lookup(w1.disk, b.swap.backup) == Lookup(w.disk, b.swap.backup);
    var (w2, r) := Swap(w1, b.buildDir, root, b.swap);
    SwapIsAtomic(w1, b.buildDir, root, b.swap);
    cut :| Cut(w1, w2, root, b.swap.backup, {b.buildDir}, Rendered(b.pages), cut) && (r.Swapped? <==> cut < |w2.past|);
    CutAfter(w, w1, w2, root, b.swap.backup, {b.buildDir}, Rendered(b.pages), cut);
    var w' := RemoveAll(w2, b.buildDir, b.discard).0;
    RemoveAllIsQuiet(w2, b.buildDir, b.discard);
    CutBefore(w, w2, w', root, b.swap.backup, {b.buildDir}, {b.buildDir}, Rendered(b.pages), cut);
    cut := if cut < |w2.past| then cut else |w'.past|;
    assert Lookup(w'.disk, root) == Lookup(w2.disk, root);
    assert Execute(w, root, b) == (w', r);
  }

  /** No step of the swap before the install fails, nor the install itself. */
  predicate SwapsCleanly(before: Disk, root: string, f: Faults) {
    !f.mkdirFails && !f.removeFails && !f.inspectFails && (root in before ==> !f.stageFails) && !f.installFails
  }

  /** The whole build: at every step the site root is the old tree, absent with the old
      tree whole at the backup, or the complete rendering. It reports success exactly
      when it is ready and the swap meets no fault, from any state of the disk; a
      failed build leaves the old tree at the root unless the swap was reached and both
      the install and the restore failed. */
  lemma BuildIsAtomic(w: World, root: string, b: Build)
    requires NewNames(w, root, b)
    ensures var (w', r) := Execute(w, root, b);
      && (exists cut: nat :: Cut(w, w', root, b.swap.backup, {b.buildDir}, Rendered(b.pages), cut) && (r.Swapped? <==> cut < |w'.past|))
      && (r.Swapped? <==> Ready(b) && SwapsCleanly(w.disk, root, b.swap))
      && (r.Failed? ==> (Lookup(w'.disk, root) == Lookup(w.disk, root) <==> !(Ready(b) && LosesRoot(w.disk, root, b.swap))))
  {
    if Ready(b) {
      var cut := ReadyBuild(w, root, b);
    } else {
      UnreadyTouchesNothing(w, root, b);
      var w' := Execute(w, root, b).0;
      QuietIsCut(w, w', root, b.swap.backup, b.buildDir, Rendered(b.pages));
      assert Lookup(w'.disk, root) == Lookup(w.disk, root);
    }
  }

  /** What a caller said to expect is what was there when the build began and, for the
      source, still when it was published. */
  lemma ExpectationsAreMet(w: World, root: string, b: Build)
    requires NewNames(w, root, b) && Execute(w, root, b).1.Swapped?
    ensures b.expectedSource != "" ==> !Blank(b.contentRoot) && b.revisionBefore == b.revisionAfter == Some(b.expectedSource)
    ensures b.expectedPublic != "" ==> b.publicRevision == Some(b.expectedPublic)
  {
    BuildIsAtomic(w, root, b);
  }

  /** What is asked before anything is created: nothing else builds, the output can be
      written, and with a content root the index reloads and the source revision can be
      read; revisions the caller expects are the ones found. */
  predicate Admissible(b: Build) {
    && b.hugoRoot != "" && !b.locked && !b.unwritable
    && (if forall c <- b.contentRoot :: c in " \t\r\n" then b.expectedSource == ""
        else !b.reloadFails && b.revisionBefore.Some? && (b.expectedSource == "" || b.revisionBefore.value == b.expectedSource))
    && (b.expectedPublic == "" || (b.siteRootSet && b.publicRevision.Some? && b.publicRevision.value == b.expectedPublic))
  }

  /** The source is the same when Hugo is done; an empty revision is not compared. */
  predicate SourceStayed(b: Build) {
    (exists c <- b.contentRoot :: c !in " \t\r\n") && b.revisionBefore != Some("") ==> b.revisionAfter == b.revisionBefore
  }

  lemma ReadyExactly(b: Build)
    ensures Ready(b) <==>
      Admissible(b) && !b.mkdirFails && !b.cacheFails && !b.callbackFails && !b.hugoFails && SourceStayed(b)
  {
    assert Blank(b.contentRoot) <==> forall c <- b.contentRoot :: c in " \t\r\n";
  }

  /** A refusal happens before anything is created; a build is published exactly when it
      is admissible, its directory, cache and callbacks work, Hugo succeeds, the source has
      stayed, and the swap can reserve its backup name, stage the old tree and install the
      new one. */
  lemma PublishesExactly(w: World, root: string, b: Build)
    requires NewNames(w, root, b)
    ensures !Admissible(b) ==> Execute(w, root, b) == (w, Failed)
    ensures Execute(w, root, b).1.Swapped? <==>
      && Admissible(b) && !b.mkdirFails && !b.cacheFails && !b.callbackFails && !b.hugoFails && SourceStayed(b)
      && !b.swap.mkdirFails && !b.swap.removeFails && !b.swap.inspectFails
      && (root in w.disk ==> !b.swap.stageFails) && !b.swap.installFails
  {
    assert Blank(b.contentRoot) <==> forall c <- b.contentRoot :: c in " \t\r\n";
    ReadyExactly(b);
    BuildIsAtomic(w, root, b);
  }

  /** A complete rendering holds no path that Hugo did not write. */
  lemma {:induction false} RenderedOnly(pages: seq<(string, Bytes)>, path: string)
    requires path in Rendered(pages)
    ensures exists k :: 0 <= k < |pages| && pages[k].0 == path
  {
    var n := |pages| - 1;
    if pages[n].0 != path {
      RenderedOnly(pages[..n], path);
      var k :| 0 <= k < |pages[..n]| && pages[..n][k].0 == path;
      assert pages[k].0 == path;
    }
  }

  /** At each path a complete rendering holds the bytes written there last. */
  lemma {:induction false} RenderedHolds(pages: seq<(string, Bytes)>, k: nat)
    requires k < |pages| && forall j :: k < j < |pages| ==> pages[j].0 != pages[k].0
    ensures Lookup(Rendered(pages), pages[k].0) == Some(pages[k].1)
  {
    var n := |pages| - 1;
    if k < n {
      RenderedHolds(pages[..n], k);
    }
  }

  lemma {:induction false} DeleteLeaves(w: World, name: string, order: seq<string>)
    requires name in w.disk
    ensures Delete(w, name, order).disk[name].Keys == w.disk[name].Keys - (set p <- order)
    decreases |order|
  {
    if order != [] {
      DeleteLeaves(Write(w, w.disk[name := w.disk[name] - {order[0]}]), name, order[1..]);
      assert forall p :: p in order <==> p == order[0] || p in order[1..];
    }
  }

  lemma {:induction false} RenderWrites(w: World, dir: string, pages: seq<(string, Bytes)>)
    requires dir in w.disk && w.disk[dir] == map[]
    ensures Render(w, dir, pages).disk[dir].Keys == set q <- pages :: q.0
    decreases |pages|
  {
    if pages != [] {
      RenderWrites(w, dir, pages[..|pages|-1]);
      assert pages == pages[..|pages|-1] + [pages[|pages|-1]];
    }
  }

  lemma RemovesWhole(w: World, name: string, r: Removal)
    requires !r.stuck && (name in w.disk ==> w.disk[name].Keys <= set p <- r.order)
    ensures name !in RemoveAll(w, name, r).0.disk
  {
    if name in w.disk {
      DeleteLeaves(w, name, r.order);
    }
  }

  predicate CanRemove(b: Build) {
    !b.discard.stuck && forall q <- b.pages :: q.0 in b.discard.order
  }

  lemma RemovesRendering(w: World, b: Build)
    requires CanRemove(b)
    ensures BeforeSwap(w, b).disk[b.buildDir].Keys <= set p <- b.discard.order
    ensures b.buildDir !in RemoveAll(BeforeSwap(w, b), b.buildDir, b.discard).0.disk
  {
    RenderWrites(Write(w, w.disk[b.buildDir := map[]]), b.buildDir, b.pages);
    RemovesWhole(BeforeSwap(w, b), b.buildDir, b.discard);
  }

  lemma RemovesAfterSwap(w: World, root: string, b: Build)
    requires CanRemove(b) && Fresh(w, root, b.buildDir, b.swap.backup) && b.buildDir in w.disk
    requires w.disk[b.buildDir].Keys <= set p <- b.discard.order
    ensures b.buildDir !in RemoveAll(Swap(w, b.buildDir, root, b.swap).0, b.buildDir, b.discard).0.disk
  {
    SwapIsAtomic(w, b.buildDir, root, b.swap);
    RemovesWhole(Swap(w, b.buildDir, root, b.swap).0, b.buildDir, b.discard);
  }

  /** Whatever the outcome, the build directory is gone once its removal can delete what
      Hugo wrote. */
  lemma NothingIsLeftBehind(w: World, root: string, b: Build)
    requires NewNames(w, root, b) && CanRemove(b)
    ensures b.buildDir !in Execute(w, root, b).0.disk
  {
    RemovesWhole(Write(w, w.disk[b.buildDir := map[]]), b.buildDir, b.discard);
    RemovesRendering(w, b);
    BeforeSwapIsQuiet(w, b);
    assert Lookup(BeforeSwap(w, b).disk, b.swap.backup) == Lookup(w.disk, b.swap.backup);
    RemovesAfterSwap(BeforeSwap(w, b), root, b);
  }

  // ----- runs with crashes -----

  /** A build, cut off after its `dies`-th change of the disk if it gets that far. */
  datatype Round = Round(build: Build, dies: Option<nat>)

  function Survive(w: World, root: string, r: Round): World {
    var w' := Execute(w, root, r.build).0;
    if r.dies.Some? && |w.past| + r.dies.value < |w'.past|
    then World(w'.past[|w.past| + r.dies.value], w'.past[..|w.past| + r.dies.value + 1])
    else w'
  }

  function Rounds(w: World, root: string, rs: seq<Round>): World
    decreases |rs|
  {
    if rs == [] then w else Rounds(Survive(w, root, rs[0]), root, rs[1..])
  }

  predicate NewNamesThroughout(w: World, root: string, rs: seq<Round>)
    decreases |rs|
  {
    rs == [] || (NewNames(w, root, rs[0].build) && NewNamesThroughout(Survive(w, root, rs[0]), root, rs[1..]))
  }

  /** A build touches no directory but the site root and the two it names itself, at any
      step. */
  lemma OthersStay(w: World, root: string, r: Round, n: string)
    requires NewNames(w, root, r.build) && n != root && n in w.disk
    ensures Lookup(Survive(w, root, r).disk, n) == Lookup(w.disk, n)
  {
    var w' := Execute(w, root, r.build).0;
    var cut: nat;
    if Ready(r.build) {
      cut := ReadyBuild(w, root, r.build);
    } else {
      UnreadyTouchesNothing(w, root, r.build);
      QuietIsCut(w, w', root, r.build.swap.backup, r.build.buildDir, Rendered(r.build.pages));
      cut := |w'.past|;
    }
    assert n !in {r.build.buildDir} + {root, r.build.swap.backup};
  }

  /** What an earlier swap left under its backup name is never restored, moved or removed
      by any later build. */
  lemma {:induction false} LeftBackupsStay(w: World, root: string, rs: seq<Round>, n: string)
    requires NewNamesThroughout(w, root, rs) && n != root && n in w.disk
    ensures Lookup(Rounds(w, root, rs).disk, n) == Lookup(w.disk, n)
    decreases |rs|
  {
    if rs != [] {
      OthersStay(w, root, rs[0], n);
      LeftBackupsStay(Survive(w, root, rs[0]), root, rs[1..], n);
    }
  }

  /** The tree most recently at the site root. */
  function LastServed(past: seq<Disk>, root: string): Option<Tree> {
    if past == [] then None
    else if root in past[|past|-1] then Some(past[|past|-1][root])
    else LastServed(past[..|past|-1], root)
  }

  lemma {:induction false} LastServedStays(past: seq<Disk>, more: seq<Disk>, root: string)
    requires forall d <- more :: root in d ==> LastServed(past, root) == Some(d[root])
    ensures LastServed(past + more, root) == LastServed(past, root)
    decreases |more|
  {
    if more == [] {
      assert past + more == past;
    } else {
      var front := more[..|more|-1];
      LastServedStays(past, front, root);
      assert (past + more)[..|past + more|-1] == past + front;
      assert more[|more|-1] in more;
    }
  }

  /** Nothing but whole trees of `whole` was ever served, and the last one served is
      still on the disk. */
  ghost predicate Sound(w: World, root: string, whole: set<Tree>) {
    && w.past != [] && w.disk == w.past[|w.past|-1]
    && (forall i | 0 <= i < |w.past| :: root in w.past[i] ==> w.past[i][root] in whole)
    && (root !in w.disk && LastServed(w.past, root).Some? ==>
          exists n :: n != root && Lookup(w.disk, n) == LastServed(w.past, root))
  }

  /** Up to any point before the new tree takes over. */
  lemma KeepsSound(w: World, w': World, root: string, backup: string, dir: string, whole: set<Tree>)
    requires Sound(w, root, whole) && Extends(w, w') && |w.past| < |w'.past| && w'.disk == w'.past[|w'.past|-1]
    requires root != dir && root != backup && backup !in w.disk && dir !in w.disk
    requires forall i | |w.past| <= i < |w'.past| :: Keeps(w.disk, w'.past[i], root, backup) && Agree(w'.past[i], w.disk, {dir, root, backup})
    ensures Sound(w', root, whole)
  {
    var more := w'.past[|w.past|..];
    assert w'.past == w.past + more;
    assert forall i | 0 <= i < |more| :: more[i] == w'.past[|w.past| + i];
    if root in w.disk {
      assert LastServed(w.past, root) == Some(w.disk[root]);
    }
    LastServedStays(w.past, more, root);
    forall i | 0 <= i < |w'.past|
      ensures root in w'.past[i] ==> w'.past[i][root] in whole
    {
      assert w'.past[i] == if i < |w.past| then w.past[i] else more[i - |w.past|];
    }
    if root !in w'.disk && LastServed(w.past, root).Some? {
      if root in w.disk {
        assert Lookup(w'.disk, backup) == LastServed(w.past, root);
      } else {
        var n :| n != root && Lookup(w.disk, n) == LastServed(w.past, root);
        assert Lookup(w'.disk, n) == Lookup(w.disk, n);
      }
    }
  }

  /** A cut of a build, whole or broken off. */
  lemma RoundSound(w: World, w': World, root: string, b: Build, whole: set<Tree>, cut: nat)
    requires Sound(w, root, whole) && NewNames(w, root, b) && w'.past != [] && w'.disk == w'.past[|w'.past|-1]
    requires Extends(w, w') && |w.past| <= cut
    requires forall i | |w.past| <= i < |w'.past| :: Agree(w'.past[i], w.disk, {b.buildDir, root, b.swap.backup})
    requires forall i | |w.past| <= i < |w'.past| ::
      if i < cut then Keeps(w.disk, w'.past[i], root, b.swap.backup) else Lookup(w'.past[i], root) == Some(Rendered(b.pages))
    requires cut < |w'.past| ==> Rendered(b.pages) in whole
    ensures Sound(w', root, whole)
  {
    if cut < |w'.past| {
      forall i | 0 <= i < |w'.past|
        ensures root in w'.past[i] ==> w'.past[i][root] in whole
      {
        assert i < |w.past| ==> w'.past[i] == w'.past[..|w.past|][i] == w.past[i];
        assert root in w.disk ==> w.disk[root] in whole;
      }
    } else if |w.past| < |w'.past| {
      KeepsSound(w, w', root, b.swap.backup, b.buildDir, whole);
    } else {
      assert w'.past == w.past;
    }
  }

  predicate Recorded(w: World) {
    w.past != [] && w.disk == w.past[|w.past|-1]
  }

  lemma {:induction false} DeleteRecords(w: World, name: string, order: seq<string>)
    requires Recorded(w) && name in w.disk
    ensures Recorded(Delete(w, name, order))
    decreases |order|
  {
    if order != [] {
      DeleteRecords(Write(w, w.disk[name := w.disk[name] - {order[0]}]), name, order[1..]);
    }
  }

  lemma RemoveAllRecords(w: World, name: string, r: Removal)
    requires Recorded(w)
    ensures Recorded(RemoveAll(w, name, r).0)
  {
    if name in w.disk {
      DeleteRecords(w, name, r.order);
    }
  }

  lemma SwapRecords(w: World, temp: string, root: string, f: Faults)
    requires Recorded(w)
    ensures Recorded(Swap(w, temp, root, f).0)
  {
    if !f.mkdirFails && !f.removeFails && !f.inspectFails {
      var w1 := Write(w, w.disk[f.backup := map[]]);
      var w2 := Write(w1, w1.disk - {f.backup});
      var w3 := if root in w2.disk then Rename(w2, root, f.backup, f.stageFails).0 else w2;
      RemoveAllRecords(Rename(w3, temp, root, f.installFails).0, f.backup, f.cleanup);
    }
  }

  lemma ExecuteRecords(w: World, root: string, b: Build)
    requires Recorded(w)
    ensures Recorded(Execute(w, root, b).0)
  {
    var w1 := Write(w, w.disk[b.buildDir := map[]]);
    RemoveAllRecords(w1, b.buildDir, b.discard);
    var w2 := BeforeSwap(w, b);
    assert Recorded(w2);
    RemoveAllRecords(w2, b.buildDir, b.discard);
    SwapRecords(w2, b.buildDir, root, b.swap);
    RemoveAllRecords(Swap(w2, b.buildDir, root, b.swap).0, b.buildDir, b.discard);
  }

  lemma RoundKeeps(w: World, root: string, r: Round, whole: set<Tree>)
    requires Sound(w, root, whole) && NewNames(w, root, r.build)
    requires Ready(r.build) ==> Rendered(r.build.pages) in whole
    ensures Sound(Survive(w, root, r), root, whole)
  {
    var w' := Execute(w, root, r.build).0;
    ExecuteRecords(w, root, r.build);
    var cut: nat;
    if Ready(r.build) {
      cut := ReadyBuild(w, root, r.build);
    } else {
      UnreadyTouchesNothing(w, root, r.build);
      QuietIsCut(w, w', root, r.build.swap.backup, r.build.buildDir, Rendered(r.build.pages));
      cut := |w'.past|;
    }
    var s := Survive(w, root, r);
    assert forall i | 0 <= i < |s.past| :: s.past[i] == w'.past[i];
    assert s.past[..|w.past|] == w'.past[..|w.past|];
    RoundSound(w, s, root, r.build, whole, cut);
  }

  lemma {:induction false} RoundsKeep(w: World, root: string, rs: seq<Round>, whole: set<Tree>)
    requires Sound(w, root, whole) && NewNamesThroughout(w, root, rs)
    requires forall r <- rs :: Ready(r.build) ==> Rendered(r.build.pages) in whole
    ensures Sound(Rounds(w, root, rs), root, whole)
    decreases |rs|
  {
    if rs != [] {
      RoundKeeps(w, root, rs[0], whole);
      RoundsKeep(Survive(w, root, rs[0]), root, rs[1..], whole);
    }
  }

  /** Over any run of builds, each failing or cut off anywhere: whatever was ever at the
      site root is the tree it started with or the complete rendering of a build that
      was ready; and when the root is absent the tree served last is still whole on the
      disk under another name. */
  lemma ServedIsAlwaysWhole(disk: Disk, root: string, rs: seq<Round>)
    requires NewNamesThroughout(World(disk, [disk]), root, rs)
    ensures var w := Rounds(World(disk, [disk]), root, rs);
      && (forall i | 0 <= i < |w.past| :: root in w.past[i] ==>
            Lookup(disk, root) == Some(w.past[i][root])
            || exists r <- rs :: Ready(r.build) && w.past[i][root] == Rendered(r.build.pages))
      && (root !in w.disk && LastServed(w.past, root).Some? ==>
            exists n :: n != root && Lookup(w.disk, n) == LastServed(w.past, root))
  {
    var whole := (if root in disk then {disk[root]} else {}) + (set r <- rs | Ready(r.build) :: Rendered(r.build.pages));
    assert [disk][..0] == [] && (root !in disk ==> LastServed([disk], root).None?);
    RoundsKeep(World(disk, [disk]), root, rs, whole);
  }
}
