/** What startup recovery decides about a journalled source mutation, and what it
    does to the files, as functions on values.

    A file system is a map from path to bytes. A write, a removal or a recursive
    removal is one change; `Faults` says how many changes go through before the
    process dies or an operation reports an error, which files cannot be read, and
    which part of a subtree is already gone when a recursive removal stops short. */
module Recovery {
  import opened Common

  /** A cleaned absolute path as its components, or the empty string. */
  datatype Path = NoPath | Abs(parts: seq<string>)

  type Files = map<Path, string>

  datatype FileChange = FileChange(path: Path, before: Option<string>, after: Option<string>)

  datatype Receipt = Receipt(caller: string, tool: string, key: string, requestHash: string, result: string) {
    function Slot(): (string, string, string) { (caller, tool, key) }

    /** What RememberMutation insists on. */
    predicate Storable() {
      caller != "" && tool != "" && key != "" && requestHash != "" && result != ""
    }
  }

  datatype Payload = Payload(
    path: Path, beforeRevision: string, afterRevision: string,
    bundleDir: Path, files: seq<FileChange>,
    cleanup: seq<Path>, receipt: Option<Receipt>)

  /** One row of the recovery journal; an undecodable payload is None. */
  datatype Entry = Entry(kind: string, state: string, payload: Option<Payload>, updatedAt: int) {
    predicate Pending() { state != "committed" && state != "reconciled" }

    /** The rows prepareMutationRecovery looks at. */
    predicate Active() {
      (state == "in_progress" || state == "file_written")
      && (kind == "content_write" || kind == "bundle_write")
      && payload.Some?
    }

    predicate Bundle() { kind == "bundle_write" }
  }

  datatype Faults = Faults(unreadable: set<Path>, changes: nat, torn: set<Path>, stage: nat)

  datatype Verdict = Ambiguous | AtBefore | AtAfter | Mixed

  /** Whether an entry is settled, and whether the caller is told that source
      files changed. */
  datatype Outcome = Pending(changed: bool) | Resolved(changed: bool, landed: bool)

  /** A digest stands for any injective, non-empty tag of the bytes. */
  function Revision(raw: string): string { "sha256:" + raw }

  function RevisionAt(files: Files, p: Path): string {
    if p in files then Revision(files[p]) else ""
  }

  /** `p` is `root` or lies below it; false when either is the empty string. */
  predicate Within(root: Path, p: Path) {
    root.Abs? && p.Abs? && root.parts <= p.parts
  }

  /** One of the two is the other or lies below it. */
  predicate Comparable(p: Path, q: Path) {
    Within(p, q) || Within(q, p)
  }

  /** `p` is a directory, or lies below something that is a file: it can be neither read,
      written nor removed. */
  predicate Blocked(files: Files, p: Path) {
    exists q <- files :: q != p && Comparable(p, q)
  }

  predicate Allowed(roots: set<Path>, p: Path) {
    forall r <- roots :: Within(r, p)
  }

  function Roots(root: Path, e: Entry): set<Path>
    requires e.payload.Some?
  {
    if e.Bundle() then {root, e.payload.value.bundleDir} else {root}
  }

  // ----- classification -----

  predicate IsBefore(files: Files, f: FileChange) { Lookup(files, f.path) == f.before }
  predicate IsAfter(files: Files, f: FileChange) { Lookup(files, f.path) == f.after }

  predicate AllBefore(files: Files, changes: seq<FileChange>) {
    forall f <- changes :: IsBefore(files, f)
  }

  predicate AllAfter(files: Files, changes: seq<FileChange>) {
    forall f <- changes :: IsAfter(files, f)
  }

  predicate AllKnown(roots: set<Path>, files: Files, changes: seq<FileChange>) {
    forall f <- changes :: Allowed(roots, f.path) && (IsBefore(files, f) || IsAfter(files, f))
  }

  function BundleVerdict(roots: set<Path>, files: Files, changes: seq<FileChange>): Verdict {
    if changes == [] || !AllKnown(roots, files, changes) then Ambiguous
    else if AllBefore(files, changes) then AtBefore
    else if AllAfter(files, changes) then AtAfter
    else Mixed
  }

  function PageVerdict(root: Path, files: Files, p: Payload): Verdict {
    var observed := RevisionAt(files, p.path);
    if !Within(root, p.path) then Ambiguous
    else if observed == p.afterRevision then AtAfter
    else if observed == p.beforeRevision then AtBefore
    else Ambiguous
  }

  /** A path that cannot be read leaves its entry undecided. */
  function Classify(root: Path, e: Entry, files: Files): Verdict
    requires e.payload.Some?
  {
    var p := e.payload.value;
    if exists q <- ReadPaths(e) :: Blocked(files, q) then Ambiguous
    else if e.Bundle() then BundleVerdict(Roots(root, e), files, p.files)
    else PageVerdict(root, files, p)
  }

  // ----- repair -----

  function SetFile(files: Files, p: Path, content: Option<string>): (r: Files)
    ensures Lookup(r, p) == content
    ensures forall q :: q != p ==> Lookup(r, q) == Lookup(files, q)
  {
    if content.Some? then files[p := content.value] else files - {p}
  }

  /** A recursive removal; with `only` it stopped after those paths. */
  function RemoveTree(files: Files, top: Path): (r: Files)
    ensures forall q :: Lookup(r, q) == if Within(top, q) then None else Lookup(files, q)
  {
    map q | q in files && !Within(top, q) :: files[q]
  }

  function TearTree(files: Files, top: Path, gone: set<Path>): (r: Files)
    ensures forall q :: Lookup(r, q) == if Within(top, q) && q in gone then None else Lookup(files, q)
  {
    map q | q in files && !(Within(top, q) && q in gone) :: files[q]
  }

  /** Put each file back to its before state, in order, for as many changes as go
      through; a blocked path is an error. */
  function RollBack(files: Files, changes: seq<FileChange>, budget: nat): (bool, Files)
    decreases |changes|
  {
    if changes == [] then (true, files)
    else if budget == 0 || Blocked(files, changes[0].path) then (false, files)
    else RollBack(SetFile(files, changes[0].path, changes[0].before), changes[1..], budget - 1)
  }

  /** Remove the cleanup paths in order; stops at one outside its roots. */
  function CleanUp(roots: set<Path>, files: Files, cleanup: seq<Path>, faults: Faults, budget: nat): (bool, Files)
    decreases |cleanup|
  {
    if cleanup == [] then (true, files)
    else if !Allowed(roots, cleanup[0]) then (false, files)
    else if budget == 0 then (false, TearTree(files, cleanup[0], faults.torn))
    else CleanUp(roots, RemoveTree(files, cleanup[0]), cleanup[1..], faults, budget - 1)
  }

  function ReadPaths(e: Entry): set<Path>
    requires e.payload.Some?
  {
    if e.Bundle() then set f <- e.payload.value.files :: f.path else {e.payload.value.path}
  }

  /** One entry of prepareMutationRecovery: the verdict and the files afterwards. */
  function Recover(root: Path, e: Entry, files: Files, faults: Faults): (Outcome, Files)
    requires e.payload.Some?
  {
    var p := e.payload.value;
    var v := Classify(root, e, files);
    if v == Ambiguous || ReadPaths(e) * faults.unreadable != {} then (Pending(false), files)
    else if v == AtBefore then (Resolved(false, false), files)
    else if v == AtAfter then
      var (done, files') := CleanUp(Roots(root, e), files, p.cleanup, faults, faults.changes);
      var some := p.cleanup != [] && Allowed(Roots(root, e), p.cleanup[0]) && faults.changes > 0;
      (if done then Resolved(p.cleanup != [], true) else Pending(some && !e.Bundle()), files')
    else
      var (done, files') := RollBack(files, p.files, faults.changes);
      (if done then Resolved(true, false) else Pending(false), files')
  }
}
