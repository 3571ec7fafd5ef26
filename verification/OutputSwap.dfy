/** Publishing a build: render into a directory beside the site root, check that the
    source has not moved, and swap the finished tree in. Any step may fail. */
module OutputSwap {
  import opened Common

  /** A rendered output: path to bytes. */
  type Tree = map<string, Bytes>

  /** The directories beside the site root, and the site root itself, by name. */
  type Disk = map<string, Tree>

  /** The disk now, and every state it has been in. */
  datatype World = World(disk: Disk, past: seq<Disk>)

  /** How far a recursive removal gets: the entries it deletes, and whether the emptied
      directory itself refuses to go. */
  datatype Removal = Removal(order: seq<string>, stuck: bool)

  /** What the environment does to one swap; `backup` is the temporary name it draws. */
  datatype Faults = Faults(backup: string, mkdirFails: bool, removeFails: bool, inspectFails: bool,
                           stageFails: bool, installFails: bool, restoreFails: bool, cleanup: Removal)

  datatype Outcome = Failed | Swapped(warning: bool)

  // ----- steps on values -----

  function Write(w: World, d: Disk): World {
    World(d, w.past + [d])
  }

  /** A directory renames onto nothing or onto an empty directory, at once or not at all. */
  function Rename(w: World, from: string, to: string, fails: bool): (World, bool) {
    if fails || from !in w.disk || (to in w.disk && w.disk[to] != map[]) then (w, false)
    else (Write(w, (w.disk - {from})[to := w.disk[from]]), true)
  }

  function Delete(w: World, name: string, order: seq<string>): (w': World)
    requires name in w.disk
    ensures name in w'.disk
    decreases |order|
  {
    if order == [] then w
    else Delete(Write(w, w.disk[name := w.disk[name] - {order[0]}]), name, order[1..])
  }

  /** Removing what is not there succeeds. */
  function RemoveAll(w: World, name: string, r: Removal): (World, bool) {
    if name !in w.disk then (w, true)
    else
      var w1 := Delete(w, name, r.order);
      if w1.disk[name] != map[] || r.stuck then (w1, false) else (Write(w1, w1.disk - {name}), true)
  }

  function Install(w: World, temp: string, root: string, hadOld: bool, f: Faults): (World, Outcome) {
    var (w1, installed) := Rename(w, temp, root, f.installFails);
    if !installed then (if hadOld then Rename(w1, f.backup, root, f.restoreFails).0 else w1, Failed)
    else if !hadOld then (w1, Swapped(false))
    else
      var (w2, clean) := RemoveAll(w1, f.backup, f.cleanup);
      (w2, Swapped(!clean))
  }

  function Swap(w: World, temp: string, root: string, f: Faults): (World, Outcome) {
    if f.mkdirFails then (w, Failed)
    else
      var w1 := Write(w, w.disk[f.backup := map[]]);
      if f.removeFails then (w1, Failed)
      else
        var w2 := Write(w1, w1.disk - {f.backup});
        if f.inspectFails then (w2, Failed)
        else if root !in w2.disk then Install(w2, temp, root, false, f)
        else
          var (w3, staged) := Rename(w2, root, f.backup, f.stageFails);
          if !staged then (w3, Failed) else Install(w3, temp, root, true, f)
  }

  /** One build: its request, the answers of everything it calls, and `pages`, what Hugo
      writes in order before it exits. */
  datatype Build = Build(
    hugoRoot: string, locked: bool, contentRoot: string, reloadFails: bool, unwritable: bool,
    revisionBefore: Option<string>, expectedSource: string, siteRootSet: bool, expectedPublic: string,
    publicRevision: Option<string>, buildDir: string, mkdirFails: bool, cacheFails: bool,
    callbackFails: bool, pages: seq<(string, Bytes)>, hugoFails: bool,
    revisionAfter: Option<string>, swap: Faults, discard: Removal)

  /** The checks before anything is created; the value is the source revision, empty
      when no content root is configured. */
  function Admit(b: Build): Option<string> {
    if !Blank(b.contentRoot) && b.reloadFails then None
    else if b.unwritable then None
    else if !Blank(b.contentRoot) && b.revisionBefore.None? then None
    else if !Blank(b.contentRoot) && b.expectedSource != "" && b.revisionBefore.value != b.expectedSource then None
    else if Blank(b.contentRoot) && b.expectedSource != "" then None
    else if b.expectedPublic != "" && (!b.siteRootSet || b.publicRevision != Some(b.expectedPublic)) then None
    else if Blank(b.contentRoot) then Some("") else b.revisionBefore
  }

  /** An empty revision means there is nothing to compare. */
  predicate Stable(revision: string, after: Option<string>) {
    revision == "" || after == Some(revision)
  }

  function Prepare(w: World, b: Build): (World, Option<string>) {
    if Admit(b).None? || b.mkdirFails then (w, None)
    else
      var w1 := Write(w, w.disk[b.buildDir := map[]]);
      if b.cacheFails then (RemoveAll(w1, b.buildDir, b.discard).0, None) else (w1, Admit(b))
  }

  function Render(w: World, dir: string, pages: seq<(string, Bytes)>): (w': World)
    requires dir in w.disk
    ensures dir in w'.disk
  {
    if pages == [] then w
    else
      var w1 := Render(w, dir, pages[..|pages|-1]);
      var page := pages[|pages|-1];
      Write(w1, w1.disk[dir := w1.disk[dir][page.0 := page.1]])
  }

  /** The tree a complete rendering leaves. */
  function Rendered(pages: seq<(string, Bytes)>): Tree {
    if pages == [] then map[]
    else Rendered(pages[..|pages|-1])[pages[|pages|-1].0 := pages[|pages|-1].1]
  }

  /** From the prepared directory to the swap. */
  function Produce(w: World, root: string, b: Build, revision: string): (World, Outcome)
    requires b.buildDir in w.disk
  {
    if b.callbackFails then (w, Failed)
    else
      var w1 := Render(w, b.buildDir, b.pages);
      if b.hugoFails || !Stable(revision, b.revisionAfter) then (w1, Failed)
      else Swap(w1, b.buildDir, root, b.swap)
  }

  /** execute: the build directory is removed whatever happens. */
  function Execute(w: World, root: string, b: Build): (World, Outcome) {
    if b.hugoRoot == "" || b.locked then (w, Failed)
    else
      var (w1, revision) := Prepare(w, b);
      if revision.None? then (w1, Failed)
      else
        var (w2, outcome) := Produce(w1, root, b, revision.value);
        (RemoveAll(w2, b.buildDir, b.discard).0, outcome)
  }

  // ----- the publisher -----

  class Publisher {
    const siteRoot: string
    var disk: Disk
    ghost var past: seq<Disk>

    ghost function Model(): World
      reads this
    {
      World(disk, past)
    }

    constructor (siteRoot: string, disk: Disk)
      ensures this.siteRoot == siteRoot && Model() == World(disk, [disk])
    {
      this.siteRoot, this.disk, past := siteRoot, disk, [disk];
    }

    method RenameDir(from: string, to: string, fails: bool) returns (ok: bool)
      modifies this
      ensures (Model(), ok) == Rename(old(Model()), from, to, fails)
      ensures ok <==> !fails && from in old(disk) && (to in old(disk) ==> old(disk)[to] == map[])
      ensures disk == if ok then (old(disk) - {from})[to := old(disk)[from]] else old(disk)
    {
      if fails || from !in disk || (to in disk && disk[to] != map[]) {
        return false;
      }
      disk := (disk - {from})[to := disk[from]];
      past := past + [disk];
      return true;
    }

    method RemoveTree(name: string, r: Removal) returns (ok: bool)
      modifies this
      ensures (Model(), ok) == RemoveAll(old(Model()), name, r)
    {
      if name !in disk {
        return true;
      }
      for i := 0 to |r.order|
        invariant name in disk
        invariant Delete(Model(), name, r.order[i..]) == Delete(old(Model()), name, r.order)
      {
        disk := disk[name := disk[name] - {r.order[i]}];
        past := past + [disk];
        assert r.order[i..][1..] == r.order[i+1..];
      }
      if disk[name] != map[] || r.stuck {
        return false;
      }
      disk := disk - {name};
      past := past + [disk];
      return true;
    }

    method SwapBuildOutput(temp: string, f: Faults) returns (outcome: Outcome)
      modifies this
      ensures (Model(), outcome) == Swap(old(Model()), temp, siteRoot, f)
    {
      if f.mkdirFails {
        return Failed;
      }
      disk := disk[f.backup := map[]];
      past := past + [disk];
      if f.removeFails {
        return Failed;
      }
      disk := disk - {f.backup};
      past := past + [disk];
      var hadOld := false;
      if f.inspectFails {
        return Failed;
      } else if siteRoot in disk {
        var staged := RenameDir(siteRoot, f.backup, f.stageFails);
        if !staged {
          return Failed;
        }
        hadOld := true;
      }
      var installed := RenameDir(temp, siteRoot, f.installFails);
      if !installed {
        if hadOld {
          var _ := RenameDir(f.backup, siteRoot, f.restoreFails);
        }
        return Failed;
      }
      if !hadOld {
        return Swapped(false);
      }
      var clean := RemoveTree(f.backup, f.cleanup);
      return Swapped(!clean);
    }

    method PrepareBuild(b: Build) returns (revision: Option<string>)
      modifies this
      ensures (Model(), revision) == Prepare(old(Model()), b)
    {
      if !Blank(b.contentRoot) && b.reloadFails {
        return None;
      }
      if b.unwritable {
        return None;
      }
      var source := "";
      if !Blank(b.contentRoot) {
        if b.revisionBefore.None? {
          return None;
        }
        source := b.revisionBefore.value;
        if b.expectedSource != "" && source != b.expectedSource {
          return None;
        }
      } else if b.expectedSource != "" {
        return None;
      }
      if b.expectedPublic != "" {
        if !b.siteRootSet || b.publicRevision != Some(b.expectedPublic) {
          return None;
        }
      }
      if b.mkdirFails {
        return None;
      }
      disk := disk[b.buildDir := map[]];
      past := past + [disk];
      if b.cacheFails {
        var _ := RemoveTree(b.buildDir, b.discard);
        return None;
      }
      return Some(source);
    }

    /** Hugo writes its pages one at a time. */
    method RunHugo(dir: string, pages: seq<(string, Bytes)>)
      requires dir in disk
      modifies this
      ensures Model() == Render(old(Model()), dir, pages)
    {
      for i := 0 to |pages|
        invariant Model() == Render(old(Model()), dir, pages[..i])
      {
        disk := disk[dir := disk[dir][pages[i].0 := pages[i].1]];
        past := past + [disk];
        assert pages[..i+1][..i] == pages[..i];
      }
      assert pages[..|pages|] == pages;
    }

    method ExecuteBuild(b: Build) returns (outcome: Outcome)
      modifies this
      ensures (Model(), outcome) == Execute(old(Model()), siteRoot, b)
    {
      if b.hugoRoot == "" || b.locked {
        return Failed;
      }
      var revision := PrepareBuild(b);
      if revision.None? {
        return Failed;
      }
      outcome := ProduceOutput(b, revision.value);
      var _ := RemoveTree(b.buildDir, b.discard);
    }

    method ProduceOutput(b: Build, revision: string) returns (outcome: Outcome)
      requires b.buildDir in disk
      modifies this
      ensures (Model(), outcome) == Produce(old(Model()), siteRoot, b, revision)
    {
      if b.callbackFails {
        return Failed;
      }
      RunHugo(b.buildDir, b.pages);
      if b.hugoFails {
        return Failed;
      }
      if revision != "" {
        if b.revisionAfter != Some(revision) {
          return Failed;
        }
      }
      outcome := SwapBuildOutput(b.buildDir, b.swap);
    }
  }
}
