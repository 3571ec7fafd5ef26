/** What a successful restart of the preview store leaves: leases, entries and managed
    directories in one-to-one correspondence. */
module PreviewRestart {
  import opened Common
  import opened PreviewStore

  /** No two leases name the same directory. */
  predicate UniqueDirs(leases: map<string, Lease>) {
    forall x <- leases, y <- leases :: x != y ==> leases[x].dirName != leases[y].dirName
  }

  /** A lease outlives the restart when it is sound, unexpired, and its directory is
      there and can be inspected. */
  predicate Survives(id: string, l: Lease, dirs: set<string>, env: Env) {
    Safe(l.dirName) && !Blank(id) && l.expiresAt > env.now && l.dirName in dirs && l.dirName !in env.stat
  }

  lemma ReconcileLeaseEffect(p: Progress, id: string, env: Env)
    requires id in p.leases && id !in p.restored && ReconcileLease(p, id, env).Some?
    ensures var p' := ReconcileLease(p, id, env).value;
      && (forall x :: x != id ==> Lookup(p'.leases, x) == Lookup(p.leases, x) && (x in p'.restored <==> x in p.restored))
      && (id in p'.restored <==> id in p'.leases) && (id in p'.restored <==> Survives(id, p.leases[id], p.dirs, env))
      && (id in p'.leases ==> p'.leases[id] == p.leases[id])
      && p.dirs - {p.leases[id].dirName} <= p'.dirs <= p.dirs
      && (id in p'.restored ==> p'.dirs == p.dirs)
  {
  }

  /** An expired lease whose directory goes with it. */
  predicate Sweeps(id: string, l: Lease, env: Env) {
    Safe(l.dirName) && !Blank(id) && l.expiresAt <= env.now && l.dirName !in env.rm
  }

  predicate SweptBy(leases: map<string, Lease>, ids: seq<string>, env: Env, d: string) {
    exists id <- ids :: id in leases && Sweeps(id, leases[id], env) && leases[id].dirName == d
  }

  /** Lease number `i` is restored: it is sound, and no lease before it has swept its
      directory away. */
  predicate RestoredAt(leases: map<string, Lease>, dirs: set<string>, order: seq<string>, env: Env, i: nat)
    requires i < |order| && order[i] in leases
  {
    var l := leases[order[i]];
    Survives(order[i], l, dirs, env) && !SweptBy(leases, order[..i], env, l.dirName)
  }

  /** The directories once the first lease has been looked at. */
  function Left(leases: map<string, Lease>, dirs: set<string>, id: string, env: Env): set<string>
    requires id in leases
  {
    if Sweeps(id, leases[id], env) then dirs - {leases[id].dirName} else dirs
  }

  lemma SweptCons(leases: map<string, Lease>, order: seq<string>, n: nat, env: Env, d: string)
    requires 0 < n <= |order| && order[0] in leases
    ensures SweptBy(leases, order[..n], env, d)
      <==> (Sweeps(order[0], leases[order[0]], env) && leases[order[0]].dirName == d) || SweptBy(leases, order[1..][..n-1], env, d)
  {
    assert order[..n] == [order[0]] + order[1..][..n-1];
    assert forall x <- order[..n] :: x == order[0] || x in order[1..][..n-1];
    assert order[0] in order[..n] && forall x <- order[1..][..n-1] :: x in order[..n];
  }

  lemma RestoredShift(leases: map<string, Lease>, dirs: set<string>, order: seq<string>, env: Env, i: nat)
    requires 0 < i < |order| && forall id <- order :: id in leases
    ensures RestoredAt(leases, dirs, order, env, i)
      <==> RestoredAt(leases, Left(leases, dirs, order[0], env), order[1..], env, i - 1)
  {
    SweptCons(leases, order, i, env, leases[order[i]].dirName);
  }

  /** Without any assumption on the leases: which directories are left, and which leases
      are restored, in terms of the state found at start-up and the order. `all` is what
      the leases still to be looked at were from the start. */
  lemma {:induction false} ReconcileAllExactly(all: map<string, Lease>, p: Progress, order: seq<string>, env: Env)
    requires Distinct(order) && (forall id <- order :: id in all && id in p.leases && p.leases[id] == all[id] && id !in p.restored)
    requires ReconcileAll(p, order, env).Some?
    ensures var p' := ReconcileAll(p, order, env).value;
      && (forall d :: d in p'.dirs <==> d in p.dirs && !SweptBy(all, order, env, d))
      && (forall x :: x !in order ==> Lookup(p'.leases, x) == Lookup(p.leases, x) && (x in p'.restored <==> x in p.restored))
      && (forall i :: 0 <= i < |order| ==> (order[i] in p'.restored <==> RestoredAt(all, p.dirs, order, env, i)))
      && (forall x <- order :: Lookup(p'.leases, x) == if x in p'.restored then Some(all[x]) else None)
    decreases |order|
  {
    if order != [] {
      var id, rest := order[0], order[1..];
      ReconcileLeaseEffect(p, id, env);
      var p1 := ReconcileLease(p, id, env).value;
      assert id !in rest;
      forall x <- rest ensures x in p1.leases && p1.leases[x] == all[x] && x !in p1.restored {
        assert Lookup(p1.leases, x) == Lookup(p.leases, x);
      }
      ReconcileAllExactly(all, p1, rest, env);
      var p' := ReconcileAll(p, order, env).value;
      assert p' == ReconcileAll(p1, rest, env).value && p1.dirs == Left(all, p.dirs, id, env);
      FirstAndRest(all, p, p1, p', order, env);
    }
  }

  lemma FirstAndRest(all: map<string, Lease>, p: Progress, p1: Progress, p': Progress, order: seq<string>, env: Env)
    requires Distinct(order) && order != [] && forall id <- order :: id in all
    requires order[0] in p.leases && p.leases[order[0]] == all[order[0]] && order[0] !in p.restored
    requires ReconcileLease(p, order[0], env) == Some(p1) && p1.dirs == Left(all, p.dirs, order[0], env)
    requires forall d :: d in p'.dirs <==> d in p1.dirs && !SweptBy(all, order[1..], env, d)
    requires forall x :: x !in order[1..] ==> Lookup(p'.leases, x) == Lookup(p1.leases, x) && (x in p'.restored <==> x in p1.restored)
    requires forall i :: 0 <= i < |order| - 1 ==> (order[1..][i] in p'.restored <==> RestoredAt(all, p1.dirs, order[1..], env, i))
    requires forall x <- order[1..] :: Lookup(p'.leases, x) == if x in p'.restored then Some(all[x]) else None
    ensures forall d :: d in p'.dirs <==> d in p.dirs && !SweptBy(all, order, env, d)
    ensures forall x :: x !in order ==> Lookup(p'.leases, x) == Lookup(p.leases, x) && (x in p'.restored <==> x in p.restored)
    ensures forall i :: 0 <= i < |order| ==> (order[i] in p'.restored <==> RestoredAt(all, p.dirs, order, env, i))
    ensures forall x <- order :: Lookup(p'.leases, x) == if x in p'.restored then Some(all[x]) else None
  {
    var id := order[0];
    ReconcileLeaseEffect(p, id, env);
    assert id !in order[1..] && forall x <- order :: x == id || x in order[1..];
    forall d ensures d in p'.dirs <==> d in p.dirs && !SweptBy(all, order, env, d) {
      SweptCons(all, order, |order|, env, d);
      assert order[..|order|] == order && order[1..][..|order|-1] == order[1..];
    }
    forall i | 0 <= i < |order| ensures order[i] in p'.restored <==> RestoredAt(all, p.dirs, order, env, i) {
      if i > 0 {
        RestoredShift(all, p.dirs, order, env, i);
        assert order[i] == order[1..][i-1];
      } else {
        assert order[..0] == [];
      }
    }
    assert Lookup(p'.leases, id) == Lookup(p1.leases, id);
  }

  /** Every listed lease ends restored or deleted; with unique directories the outcome
      depends on the state found at start-up alone. */
  lemma ReconcileAllEffect(p: Progress, order: seq<string>, env: Env)
    requires Distinct(order) && (forall id <- order :: id in p.leases && id !in p.restored)
    requires UniqueDirs(p.leases) && ReconcileAll(p, order, env).Some?
    ensures var p' := ReconcileAll(p, order, env).value;
      && (forall x :: x !in order ==> Lookup(p'.leases, x) == Lookup(p.leases, x) && (x in p'.restored <==> x in p.restored))
      && (forall x <- order :: (x in p'.restored <==> x in p'.leases) && (x in p'.restored <==> Survives(x, p.leases[x], p.dirs, env)))
      && (forall x <- order :: x in p'.leases ==> p'.leases[x] == p.leases[x])
      && p'.dirs <= p.dirs
      && (forall d <- p.dirs :: d in p'.dirs || exists x <- order :: x !in p'.restored && p.leases[x].dirName == d)
  {
    ReconcileAllExactly(p.leases, p, order, env);
    forall i | 0 <= i < |order|
      ensures RestoredAt(p.leases, p.dirs, order, env, i) == Survives(order[i], p.leases[order[i]], p.dirs, env)
    {
      AloneInDirectory(p.leases, order, env, i);
    }
    forall x <- order
      ensures x in ReconcileAll(p, order, env).value.restored <==> Survives(x, p.leases[x], p.dirs, env)
    {
      var i :| 0 <= i < |order| && order[i] == x;
    }
    forall x <- order
      ensures x in ReconcileAll(p, order, env).value.leases <==> x in ReconcileAll(p, order, env).value.restored
      ensures x in ReconcileAll(p, order, env).value.leases ==> ReconcileAll(p, order, env).value.leases[x] == p.leases[x]
    {
      assert Lookup(ReconcileAll(p, order, env).value.leases, x) == if x in ReconcileAll(p, order, env).value.restored then Some(p.leases[x]) else None;
    }
  }

  lemma AloneInDirectory(leases: map<string, Lease>, order: seq<string>, env: Env, i: nat)
    requires Distinct(order) && i < |order| && UniqueDirs(leases) && forall id <- order :: id in leases
    ensures !SweptBy(leases, order[..i], env, leases[order[i]].dirName)
  {
    forall x <- order[..i] ensures x in order && x != order[i] {
      var j :| 0 <= j < i && order[..i][j] == x;
    }
  }

  /** After a successful restart over leases with distinct directories, the surviving
      leases, the entries and the managed directories on disk correspond one to one. */
  lemma RestartCorresponds(leases: map<string, Lease>, dirs: set<string>, order: seq<string>, env: Env)
    requires Distinct(order) && (forall id :: id in order <==> id in leases) && UniqueDirs(leases)
    requires ReconcileAll(Progress(leases, dirs, {}), order, env).Some?
    ensures var p := ReconcileAll(Progress(leases, dirs, {}), order, env).value;
      var disk := p.dirs - Orphans(p);
      && p.restored == p.leases.Keys
      && (forall id <- leases :: id in p.leases <==> Survives(id, leases[id], dirs, env))
      && (forall id <- p.leases :: id in leases && p.leases[id] == leases[id] && leases[id].dirName in disk)
      && (forall d <- disk :: Safe(d) ==> exists id <- p.leases :: p.leases[id].dirName == d)
      && UniqueDirs(p.leases)
      && (forall d <- dirs :: !Safe(d) && (forall id <- leases :: leases[id].dirName != d) ==> d in disk)
  {
    var p0 := Progress(leases, dirs, {});
    ReconcileAllEffect(p0, order, env);
    var p := ReconcileAll(p0, order, env).value;
    forall id | id !in order ensures id !in p.leases && id !in p.restored {
      assert Lookup(p.leases, id) == Lookup(leases, id);
    }
    forall id <- p.leases ensures leases[id].dirName in p.dirs - Orphans(p) {
      assert id in order && Survives(id, leases[id], dirs, env);
      assert leases[id].dirName in dirs;
      assert leases[id].dirName in ActiveNames(p);
    }
  }

  /** A directory of the store's own making, by its name. */
  predicate Managed(name: string) {
    |name| > 12 && name[..12] == "mcp-preview-" && forall c <- name :: c != '/'
  }

  lemma ManagedIsSafe(name: string)
    ensures Safe(name) <==> Managed(name)
  {
    assert |PREFIX| == 12;
    assert PREFIX < name ==> name[..12] == PREFIX;
  }

  /** What such a restart leaves, exactly: the leases with a name of their own, unexpired,
      over a managed directory that is there and can be inspected; the managed directories
      of these leases; and every other directory that was there. */
  lemma RestartKeepsExactly(leases: map<string, Lease>, dirs: set<string>, order: seq<string>, env: Env)
    requires Distinct(order) && (forall id :: id in order <==> id in leases) && UniqueDirs(leases)
    requires ReconcileAll(Progress(leases, dirs, {}), order, env).Some?
    ensures var p := ReconcileAll(Progress(leases, dirs, {}), order, env).value;
      && (forall id :: id in p.leases <==>
            && id in leases && (exists c <- id :: c !in " \t\r\n") && env.now < leases[id].expiresAt
            && Managed(leases[id].dirName) && leases[id].dirName in dirs && leases[id].dirName !in env.stat)
      && (forall d :: d in p.dirs - Orphans(p) <==>
            d in dirs && (Managed(d) ==> exists id <- p.leases :: leases[id].dirName == d))
  {
    var p0 := Progress(leases, dirs, {});
    var p := ReconcileAll(p0, order, env).value;
    RestartCorresponds(leases, dirs, order, env);
    ReconcileAllExactly(leases, p0, order, env);
    forall id ensures id in p.leases <==>
      && id in leases && (exists c <- id :: c !in " \t\r\n") && env.now < leases[id].expiresAt
      && Managed(leases[id].dirName) && leases[id].dirName in dirs && leases[id].dirName !in env.stat
    {
      if id in leases {
        ManagedIsSafe(leases[id].dirName);
        assert Blank(id) <==> forall c <- id :: c in " \t\r\n";
      }
    }
    forall d ensures d in p.dirs - Orphans(p) <==> d in dirs && (Managed(d) ==> exists id <- p.leases :: leases[id].dirName == d) {
      ManagedIsSafe(d);
    }
  }

  // ----- leases that share a directory -----

  /** A restored lease shares its directory with a later one that is restored as well or
      sweeps it. */
  predicate Clash(leases: map<string, Lease>, dirs: set<string>, order: seq<string>, env: Env)
    requires forall id <- order :: id in leases
  {
    exists i, j :: 0 <= i < j < |order| && leases[order[i]].dirName == leases[order[j]].dirName
      && RestoredAt(leases, dirs, order, env, i)
      && (RestoredAt(leases, dirs, order, env, j) || Sweeps(order[j], leases[order[j]], env))
  }

  /** Leases, entries and managed directories correspond one to one. */
  predicate Corresponds(p: Progress) {
    var disk := p.dirs - Orphans(p);
    && p.restored == p.leases.Keys && UniqueDirs(p.leases)
    && (forall id <- p.leases :: p.leases[id].dirName in disk)
    && (forall d <- disk :: Safe(d) ==> exists id <- p.leases :: p.leases[id].dirName == d)
  }

  /** Exactly: a restart that succeeds leaves the correspondence if and only if no two
      leases clash in the order they are read. */
  lemma CorrespondsExactly(leases: map<string, Lease>, dirs: set<string>, order: seq<string>, env: Env)
    requires Distinct(order) && forall id :: id in order <==> id in leases
    requires ReconcileAll(Progress(leases, dirs, {}), order, env).Some?
    ensures Corresponds(ReconcileAll(Progress(leases, dirs, {}), order, env).value) <==> !Clash(leases, dirs, order, env)
  {
    var p0 := Progress(leases, dirs, {});
    ReconcileAllExactly(leases, p0, order, env);
    var p := ReconcileAll(p0, order, env).value;
    forall x ensures x in p.leases <==> x in p.restored {
      assert x !in order ==> Lookup(p.leases, x) == Lookup(leases, x);
      assert x in order ==> Lookup(p.leases, x) == if x in p.restored then Some(leases[x]) else None;
    }
    forall x <- p.leases ensures x in leases && p.leases[x] == leases[x] {
      assert x in order;
      assert Lookup(p.leases, x) == Some(leases[x]);
    }
    if Clash(leases, dirs, order, env) {
      ClashShows(leases, dirs, order, env, p);
    } else {
      NoClashShows(leases, dirs, order, env, p);
    }
  }

  predicate Outcome(leases: map<string, Lease>, dirs: set<string>, order: seq<string>, env: Env, p: Progress)
    requires forall id <- order :: id in leases
  {
    && p.restored == p.leases.Keys
    && (forall x <- p.leases :: x in order && p.leases[x] == leases[x])
    && (forall i :: 0 <= i < |order| ==> (order[i] in p.leases <==> RestoredAt(leases, dirs, order, env, i)))
    && (forall d <- p.dirs :: !SweptBy(leases, order, env, d))
    && (forall d <- dirs :: !SweptBy(leases, order, env, d) ==> d in p.dirs)
  }

  lemma ClashShows(leases: map<string, Lease>, dirs: set<string>, order: seq<string>, env: Env, p: Progress)
    requires Distinct(order) && (forall id <- order :: id in leases) && Outcome(leases, dirs, order, env, p)
    requires Clash(leases, dirs, order, env)
    ensures !Corresponds(p)
  {
    var i, j :| 0 <= i < j < |order| && leases[order[i]].dirName == leases[order[j]].dirName
      && RestoredAt(leases, dirs, order, env, i)
      && (RestoredAt(leases, dirs, order, env, j) || Sweeps(order[j], leases[order[j]], env));
    assert order[i] in p.leases && order[i] != order[j];
    if !RestoredAt(leases, dirs, order, env, j) {
      assert order[j] in order && SweptBy(leases, order, env, leases[order[i]].dirName);
    }
  }

  lemma NotSwept(leases: map<string, Lease>, dirs: set<string>, order: seq<string>, env: Env, i: nat)
    requires Distinct(order) && (forall id <- order :: id in leases) && !Clash(leases, dirs, order, env)
    requires i < |order| && RestoredAt(leases, dirs, order, env, i)
    ensures !SweptBy(leases, order, env, leases[order[i]].dirName)
  {
    forall x <- order ensures !(Sweeps(x, leases[x], env) && leases[x].dirName == leases[order[i]].dirName) {
      var j :| 0 <= j < |order| && order[j] == x;
      if j < i {
        assert order[..i][j] == x;
      }
    }
  }

  lemma NoClashShows(leases: map<string, Lease>, dirs: set<string>, order: seq<string>, env: Env, p: Progress)
    requires Distinct(order) && (forall id <- order :: id in leases) && Outcome(leases, dirs, order, env, p)
    requires !Clash(leases, dirs, order, env)
    ensures Corresponds(p)
  {
    forall id <- p.leases ensures p.leases[id].dirName in p.dirs - Orphans(p) {
      var i :| 0 <= i < |order| && order[i] == id;
      NotSwept(leases, dirs, order, env, i);
      assert leases[id].dirName in ActiveNames(p);
    }
    forall x <- p.leases, y <- p.leases | x != y ensures p.leases[x].dirName != p.leases[y].dirName {
      var i :| 0 <= i < |order| && order[i] == x;
      var j :| 0 <= j < |order| && order[j] == y;
      assert i < j || j < i;
    }
  }

  /** An instance of a clash: the expired lease is read last and takes the directory of the
      restored one with it. */
  lemma SharedDirectoryIsLost()
    ensures var d := PREFIX + "1";
      var leases := map["live" := Lease("o", d, "ok", 1, 9), "old" := Lease("o", d, "ok", 2, 3)];
      var r := ReconcileAll(Progress(leases, {d}, {}), ["live", "old"], Env(5, {}, {}, {}, false));
      r.Some? && r.value.restored == {"live"} && r.value.dirs == {}
  {
    var d := PREFIX + "1";
    var live, old_ := Lease("o", d, "ok", 1, 9), Lease("o", d, "ok", 2, 3);
    assert "live"[0] == 'l' && "old"[0] == 'o';
    var leases := map["live" := live, "old" := old_];
    var env := Env(5, {}, {}, {}, false);
    assert |"live"| != |"old"|;
    assert Safe(d) by {
      assert PREFIX <= d && '/' !in PREFIX && '/' !in "1";
    }
    assert !Blank("live") && !Blank("old") by {
      assert 'l' in "live" && 'l' in "old";
    }
    var p0 := Progress(leases, {d}, {});
    var p1 := p0.(restored := {"live"});
    assert p0.restored + {"live"} == p1.restored && p1.dirs - {d} == {};
    assert p0.leases["live"] == live && p1.leases["old"] == old_;
    assert ReconcileLease(p0, "live", env) == Some(p1);
    var p2 := Progress(leases - {"old"}, {}, {"live"});
    assert ReconcileLease(p1, "old", env) == Some(p2);
    var order := ["live", "old"];
    assert order[1..] == ["old"] && ["old"][1..] == [];
    assert ReconcileAll(p2, [], env) == Some(p2);
    assert ReconcileAll(p1, ["old"], env) == Some(p2);
    assert ReconcileAll(p0, order, env) == ReconcileAll(p1, order[1..], env);
  }
}
