/** The preview store: entries in memory, leases in the database, directories on disk.
    Persistence and removal can fail; every method keeps a durable lease behind every
    entry, and a restart rebuilds the entries from the leases. */
module PreviewStore {
  import opened Common
  import opened PreviewSessions

  datatype Dir = Dir(parent: string, name: string)

  datatype Lease = Lease(owner: string, dirName: string, buildStatus: string, createdAt: int, expiresAt: int)

  datatype Snapshot = Snapshot(id: string, owner: string, expiresAt: int, restartInvalidated: bool)

  /** Ids whose lease cannot be deleted, directories that cannot be removed. */
  datatype Faults = Faults(db: set<string>, rm: set<string>)

  const PREFIX := "mcp-preview-"

  /** One path element with the managed prefix and something behind it. */
  predicate Safe(name: string) {
    PREFIX < name && '/' !in name
  }

  class Entry {
    const dir: Dir
    const token: string
    const owner: string
    const buildStatus: string
    const expiresAt: int
    const recovered: bool
    var createdAt: int
    var sessionToken: string
    var sessionActivated: bool

    constructor (dir: Dir, token: string, owner: string, buildStatus: string, createdAt: int, expiresAt: int, recovered: bool)
      ensures this.dir == dir && this.token == token && this.owner == owner && this.buildStatus == buildStatus
      ensures this.createdAt == createdAt && this.expiresAt == expiresAt && this.recovered == recovered
      ensures Model() == Session(token, "", false, expiresAt)
    {
      this.dir, this.token, this.owner, this.buildStatus := dir, token, owner, buildStatus;
      this.createdAt, this.expiresAt, this.recovered := createdAt, expiresAt, recovered;
      sessionToken, sessionActivated := "", false;
    }

    ghost function Model(): Session
      reads this
    {
      Session(token, sessionToken, sessionActivated, expiresAt)
    }

    function Snap(id: string): Snapshot { Snapshot(id, owner, expiresAt, recovered) }
  }

  // ----- restart, as values -----

  datatype Env = Env(now: int, db: set<string>, rm: set<string>, stat: set<string>, scanFails: bool)

  datatype Progress = Progress(leases: map<string, Lease>, dirs: set<string>, restored: set<string>)

  /** One lease of the reconciliation loop; None is an error that ends start-up. */
  function ReconcileLease(p: Progress, id: string, env: Env): Option<Progress>
    requires id in p.leases
  {
    var l := p.leases[id];
    if !Safe(l.dirName) || Blank(id) then
      if id in env.db then None else Some(p.(leases := p.leases - {id}))
    else if l.expiresAt <= env.now then
      if id in env.db then None
      else Some(p.(leases := p.leases - {id}, dirs := if l.dirName in env.rm then p.dirs else p.dirs - {l.dirName}))
    else if l.dirName in env.stat || l.dirName !in p.dirs then
      if id in env.db then None else Some(p.(leases := p.leases - {id}))
    else Some(p.(restored := p.restored + {id}))
  }

  predicate Distinct(order: seq<string>) {
    forall i, j :: 0 <= i < j < |order| ==> order[i] != order[j]
  }

  function ReconcileAll(p: Progress, order: seq<string>, env: Env): Option<Progress>
    requires Distinct(order) && forall id <- order :: id in p.leases
    decreases |order|
  {
    if order == [] then Some(p)
    else match ReconcileLease(p, order[0], env)
      case None => None
      case Some(p') => ReconcileAll(p', order[1..], env)
  }

  lemma ReconcileNext(p: Progress, order: seq<string>, i: nat, env: Env)
    requires Distinct(order) && i < |order| && forall k :: i <= k < |order| ==> order[k] in p.leases
    ensures ReconcileAll(p, order[i..], env) ==
      var next := ReconcileLease(p, order[i], env);
      if next.None? then None else ReconcileAll(next.value, order[i+1..], env)
  {
    assert order[i..][0] == order[i] && order[i..][1..] == order[i+1..];
  }

  function ActiveNames(p: Progress): set<string> {
    set id <- p.restored | id in p.leases :: p.leases[id].dirName
  }

  function Orphans(p: Progress): set<string> {
    set d <- p.dirs | Safe(d) && d !in ActiveNames(p)
  }

  class Store {
    const persistent: bool
    const root: string
    var entries: map<string, Entry>
    var leases: map<string, Lease>
    var dirs: set<string>

    /** Behind every entry stands its durable lease. */
    ghost predicate Leased()
      reads this
    {
      persistent ==> forall id <- entries ::
        && id in leases && !Blank(id)
        && entries[id].dir == Dir(root, leases[id].dirName) && Safe(leases[id].dirName)
        && leases[id].owner == entries[id].owner && leases[id].expiresAt == entries[id].expiresAt
    }

    constructor (persistent: bool, root: string, leases: map<string, Lease>, dirs: set<string>)
      ensures this.persistent == persistent && this.root == root && entries == map[]
      ensures this.leases == leases && this.dirs == dirs && Leased()
    {
      this.persistent, this.root, this.leases, this.dirs := persistent, root, leases, dirs;
      entries := map[];
    }

    method Put(id: string, entry: Entry, now: int, dbFails: bool) returns (ok: bool)
      requires Leased()
      modifies this`entries, this`leases, entry`createdAt
      ensures Leased()
      ensures entry.createdAt == if old(entry.createdAt) == 0 then now else old(entry.createdAt)
      ensures ok <==> !persistent || (!Blank(id) && entry.dir.parent == root && Safe(entry.dir.name)
                                      && entry.createdAt != 0 && entry.expiresAt != 0 && !dbFails)
      ensures entries == if ok then old(entries)[id := entry] else old(entries)
      ensures leases == if ok && persistent
        then old(leases)[id := Lease(entry.owner, entry.dir.name, entry.buildStatus, entry.createdAt, entry.expiresAt)]
        else old(leases)
    {
      if entry.createdAt == 0 {
        entry.createdAt := now;
      }
      if persistent {
        if Blank(id) || entry.dir.parent != root || !Safe(entry.dir.name) {
          return false;
        }
        if entry.createdAt == 0 || entry.expiresAt == 0 || dbFails {
          return false;
        }
        leases := leases[id := Lease(entry.owner, entry.dir.name, entry.buildStatus, entry.createdAt, entry.expiresAt)];
      }
      entries := entries[id := entry];
      return true;
    }

    /** Lease first, then the entry, then (best effort) the directory. */
    method RemoveExpired(id: string, faults: Faults) returns (removed: bool)
      requires Leased() && id in entries
      modifies this
      ensures Leased()
      ensures removed <==> !(persistent && id in faults.db)
      ensures removed ==>
        && entries == old(entries) - {id}
        && leases == (if persistent then old(leases) - {id} else old(leases))
        && dirs == old(dirs) - ({old(entries)[id].dir.name} - faults.rm)
      ensures !removed ==> entries == old(entries) && leases == old(leases) && dirs == old(dirs)
    {
      if persistent && id in faults.db {
        return false;
      }
      if persistent {
        leases := leases - {id};
      }
      dirs := dirs - ({entries[id].dir.name} - faults.rm);
      entries := entries - {id};
      return true;
    }

    /** EstablishSession, one critical section. */
    method EstablishSession(id: string, token: string, now: int, random: Option<string>, faults: Faults)
      returns (cookie: Option<string>)
      requires Leased()
      modifies this, if id in entries then {entries[id]} else {}
      ensures Leased()
      ensures id !in old(entries) ==> cookie == None
      ensures id in old(entries) ==> var e := old(entries)[id];
        (e.Model(), cookie) == Exchange(old(e.Model()), token, now, random) && e.createdAt == old(e.createdAt)
      ensures if id in old(entries) && now > old(entries)[id].expiresAt && !(persistent && id in faults.db)
        then && entries == old(entries) - {id}
             && leases == (if persistent then old(leases) - {id} else old(leases))
             && dirs == old(dirs) - ({old(entries)[id].dir.name} - faults.rm)
        else entries == old(entries) && leases == old(leases) && dirs == old(dirs)
    {
      if id !in entries {
        return None;
      }
      var entry := entries[id];
      if now > entry.expiresAt {
        var _ := RemoveExpired(id, faults);
        return None;
      }
      if entry.token != token {
        return None;
      }
      if entry.sessionToken != "" && entry.sessionActivated {
        return None;
      }
      if entry.sessionToken == "" {
        if random.None? {
          return None;
        }
        entry.sessionToken := random.value;
      }
      return Some(entry.sessionToken);
    }

    /** GetBySession up to the comparison, which reads a snapshot taken under the lock. */
    method BeginFetch(id: string, cookie: string, now: int, faults: Faults) returns (entry: Entry?)
      requires Leased()
      modifies this
      ensures Leased()
      ensures entry != null <==> id in old(entries) && CookieMatches(old(entries)[id].Model(), cookie, now)
      ensures entry != null ==> entry == old(entries)[id]
      ensures if id in old(entries) && now > old(entries)[id].expiresAt && !(persistent && id in faults.db)
        then && entries == old(entries) - {id}
             && leases == (if persistent then old(leases) - {id} else old(leases))
             && dirs == old(dirs) - ({old(entries)[id].dir.name} - faults.rm)
        else entries == old(entries) && leases == old(leases) && dirs == old(dirs)
    {
      entry := null;
      if id !in entries {
        return;
      }
      var found := entries[id];
      if now > found.expiresAt {
        var _ := RemoveExpired(id, faults);
        return;
      }
      var stored := found.sessionToken;
      if stored != cookie {
        return;
      }
      entry := found;
    }

    /** The second critical section of GetBySession, on the entry it still holds. */
    method FinishFetch(entry: Entry)
      modifies entry`sessionActivated
      ensures entry.Model() == old(entry.Model()).(activated := true)
    {
      entry.sessionActivated := true;
    }

    method ResetSessionForProbe(id: string) returns (ok: bool)
      modifies if id in entries then {entries[id]} else {}
      ensures ok <==> id in entries
      ensures ok ==> var e := entries[id];
        e.Model() == old(e.Model()).(cookie := "", activated := false) && e.createdAt == old(e.createdAt)
    {
      if id !in entries {
        return false;
      }
      entries[id].sessionToken, entries[id].sessionActivated := "", false;
      return true;
    }

    predicate Expired(id: string, now: int)
      requires id in entries
      reads this
    {
      now > entries[id].expiresAt
    }

    /** A failing lease deletion ends the sweep: what was dropped before it keeps its
        directory. */
    method SweepPersistent(now: int, faults: Faults) returns (ok: bool)
      requires Leased()
      modifies this
      ensures Leased()
      ensures forall id <- old(entries) :: (id in entries && entries[id] == old(entries)[id]) || old(Expired(id, now))
      ensures entries.Keys <= old(entries).Keys
      ensures leases == if persistent then old(leases) - (old(entries).Keys - entries.Keys) else old(leases)
      ensures ok ==> forall id <- entries :: !Expired(id, now)
      ensures ok ==> dirs == old(dirs) - ((set id <- old(entries) | old(Expired(id, now)) :: old(entries)[id].dir.name) - faults.rm)
      ensures !ok ==> dirs == old(dirs) && persistent && exists id <- entries :: Expired(id, now) && id in faults.db
    {
      var expiredDirs: set<string> := {};
      var left := entries.Keys;
      ghost var gone: set<string> := {};
      while left != {}
        invariant left <= entries.Keys && gone <= old(entries).Keys
        invariant entries == old(entries) - gone
        invariant forall id :: id in gone <==> id in old(entries) && id !in left && now > old(entries)[id].expiresAt
        invariant leases == if persistent then old(leases) - gone else old(leases)
        invariant expiredDirs == DirNames(old(entries), gone)
        invariant dirs == old(dirs)
      {
        var id :| id in left;
        left := left - {id};
        if now > entries[id].expiresAt {
          var name := entries[id].dir.name;
          var dropped := DropLeased(id, faults);
          if !dropped {
            return false;
          }
          DirNamesAdd(old(entries), gone, id);
          gone := gone + {id};
          expiredDirs := expiredDirs + {name};
        }
      }
      dirs := dirs - (expiredDirs - faults.rm);
      return true;
    }

    /** The entry goes only if its lease goes first. */
    method DropLeased(id: string, faults: Faults) returns (dropped: bool)
      requires Leased() && id in entries
      modifies this`entries, this`leases
      ensures Leased()
      ensures dropped <==> !(persistent && id in faults.db)
      ensures entries == if dropped then old(entries) - {id} else old(entries)
      ensures leases == if dropped && persistent then old(leases) - {id} else old(leases)
    {
      if persistent && id in faults.db {
        return false;
      }
      if persistent {
        leases := leases - {id};
      }
      entries := entries - {id};
      return true;
    }

    /** List, and ListOwned for a non-empty owner: expired entries are dropped where
        the database allows it and never shown. */
    method ListOwned(owner: string, now: int, faults: Faults) returns (out: seq<Snapshot>)
      requires Leased()
      modifies this
      ensures Leased()
      ensures forall id :: id in entries <==>
        id in old(entries) && (!old(Expired(id, now)) || (persistent && id in faults.db))
      ensures forall id <- entries :: entries[id] == old(entries)[id]
      ensures leases == if persistent then old(leases) - (old(entries).Keys - entries.Keys) else old(leases)
      ensures dirs == old(dirs) - ((set id <- old(entries) | id !in entries :: old(entries)[id].dir.name) - faults.rm)
      ensures forall s :: s in out <==> Listed(old(entries), s, owner, now)
    {
      out := [];
      var expiredDirs: set<string> := {};
      var left := entries.Keys;
      ghost var gone: set<string> := {};
      while left != {}
        invariant left <= entries.Keys && gone <= old(entries).Keys
        invariant entries == old(entries) - gone
        invariant forall id :: id in gone <==>
          id in old(entries) && id !in left && now > old(entries)[id].expiresAt && !(persistent && id in faults.db)
        invariant leases == if persistent then old(leases) - gone else old(leases)
        invariant expiredDirs == DirNames(old(entries), gone)
        invariant dirs == old(dirs)
        invariant forall s :: s in out <==> s.id !in left && Listed(old(entries), s, owner, now)
      {
        var id :| id in left;
        left := left - {id};
        var entry := entries[id];
        if now > entry.expiresAt {
          var dropped := DropLeased(id, faults);
          if dropped {
            DirNamesAdd(old(entries), gone, id);
            gone := gone + {id};
            expiredDirs := expiredDirs + {entry.dir.name};
          }
          continue;
        }
        if owner != "" && entry.owner != owner {
          continue;
        }
        out := out + [entry.Snap(id)];
      }
      dirs := dirs - (expiredDirs - faults.rm);
    }

    method RevokeOwnedPersistent(id: string, owner: string, faults: Faults) returns (revoked: bool, err: bool)
      requires Leased()
      modifies this
      ensures Leased()
      ensures revoked || err <==> id in old(entries) && (owner == "" || old(entries)[id].owner == owner)
      ensures !(revoked && err) && (revoked || err ==> (err <==> persistent && id in faults.db))
      ensures revoked ==>
        && entries == old(entries) - {id}
        && leases == (if persistent then old(leases) - {id} else old(leases))
        && dirs == old(dirs) - ({old(entries)[id].dir.name} - faults.rm)
      ensures !revoked ==> entries == old(entries) && leases == old(leases) && dirs == old(dirs)
    {
      if id !in entries || (owner != "" && entries[id].owner != owner) {
        return false, false;
      }
      var removed := RemoveExpired(id, faults);
      return removed, !removed;
    }

    /** One database statement deletes the owner's leases; entries follow. */
    method RevokeAllOwnedPersistent(owner: string, dbFails: bool, faults: Faults) returns (count: nat, err: bool)
      requires Leased()
      modifies this
      ensures Leased()
      ensures err <==> persistent && dbFails
      ensures err ==> entries == old(entries) && leases == old(leases) && dirs == old(dirs) && count == 0
      ensures !err ==> var gone := set id <- old(entries) | owner == "" || old(entries)[id].owner == owner;
        && entries == old(entries) - gone && count == |gone|
        && leases == (if persistent then map id | id in old(leases) && owner != "" && old(leases)[id].owner != owner :: old(leases)[id]
                      else old(leases))
        && dirs == old(dirs) - ((set id <- gone :: old(entries)[id].dir.name) - faults.rm)
    {
      var mine := set id <- entries | owner == "" || entries[id].owner == owner;
      if persistent && dbFails {
        return 0, true;
      }
      if persistent {
        leases := map id | id in leases && owner != "" && leases[id].owner != owner :: leases[id];
      }
      var doomed := set id <- mine :: entries[id].dir.name;
      entries := entries - mine;
      dirs := dirs - (doomed - faults.rm);
      return |mine|, false;
    }

    /** Start-up: entries from leases, then orphaned directories removed. */
    method Reconcile(order: seq<string>, env: Env) returns (ok: bool)
      requires persistent && entries == map[] && Distinct(order)
      requires forall id :: id in order <==> id in leases
      modifies this
      ensures Leased()
      ensures var p := ReconcileAll(Progress(old(leases), old(dirs), {}), order, env);
        && (ok <==> p.Some? && !env.scanFails && Orphans(p.value) !! env.rm)
        && (ok ==> leases == p.value.leases && entries.Keys == p.value.restored && dirs == p.value.dirs - Orphans(p.value))
      ensures ok ==> forall id <- entries ::
        && id in leases
        && var e, l := entries[id], leases[id];
        && e.token == "" && e.sessionToken == "" && !e.sessionActivated && e.recovered
        && e.dir == Dir(root, l.dirName) && e.owner == l.owner && e.expiresAt == l.expiresAt && e.buildStatus == l.buildStatus
    {
      assert entries.Keys == {};
      var active;
      ok, active := RestoreLeases(order, env);
      if !ok || env.scanFails {
        return false;
      }
      ok := RemoveOrphans(active, env);
    }

    /** Every entry mirrors its lease and carries no secret. */
    ghost predicate Mirrors()
      reads this, entries.Values
    {
      forall id <- entries ::
        && id in leases && !Blank(id) && Restored(entries[id], leases[id], root)
        && entries[id].Model() == Session("", "", false, leases[id].expiresAt)
    }

    ghost function Progressed(): Progress
      reads this
    {
      Progress(leases, dirs, entries.Keys)
    }

    /** The loop over the leases. */
    method RestoreLeases(order: seq<string>, env: Env) returns (ok: bool, active: set<string>)
      requires persistent && entries.Keys == {} && Distinct(order)
      requires forall id :: id in order <==> id in leases
      modifies this
      ensures Leased()
      ensures var p := ReconcileAll(Progress(old(leases), old(dirs), {}), order, env);
        && (ok <==> p.Some?)
        && (ok ==> Progressed() == p.value && active == ActiveNames(p.value) && Mirrors())
    {
      ghost var p0 := Progress(leases, dirs, {});
      active := {};
      assert order[0..] == order;
      for i := 0 to |order|
        invariant Mirrors()
        invariant forall e <- entries.Values :: fresh(e)
        invariant forall k :: i <= k < |order| ==> order[k] in leases && order[k] !in entries
        invariant ReconcileAll(p0, order, env) == ReconcileAll(Progressed(), order[i..], env)
        invariant active == ActiveNames(Progressed())
      {
        ReconcileNext(Progressed(), order, i, env);
        ok, active := RestoreLease(order[i], active, env);
        if !ok {
          return;
        }
        forall k | i < k < |order| ensures order[k] in leases && order[k] !in entries {
          assert order[k] != order[i];
        }
      }
      return true, active;
    }

    /** One lease: dropped as unsafe, expired or missing, or turned into an entry. */
    method RestoreLease(id: string, active0: set<string>, env: Env) returns (ok: bool, active: set<string>)
      requires id in leases && id !in entries && Mirrors()
      requires active0 == ActiveNames(Progressed())
      modifies this
      ensures var r := ReconcileLease(old(Progressed()), id, env);
        && (ok <==> r.Some?)
        && (ok ==> Progressed() == r.value)
      ensures Mirrors()
      ensures forall e <- entries.Values :: e in old(entries.Values) || fresh(e)
      ensures forall x :: x != id ==> (x in leases <==> x in old(leases)) && (x in entries <==> x in old(entries))
      ensures active == ActiveNames(Progressed())
    {
      active := active0;
      var l := leases[id];
      if !Safe(l.dirName) || Blank(id) {
        if id in env.db {
          return false, active;
        }
        leases := leases - {id};
        return true, active;
      }
      if l.expiresAt <= env.now {
        if id in env.db {
          return false, active;
        }
        leases := leases - {id};
        if l.dirName !in env.rm {
          dirs := dirs - {l.dirName};
        }
        return true, active;
      }
      if l.dirName in env.stat || l.dirName !in dirs {
        if id in env.db {
          return false, active;
        }
        leases := leases - {id};
        return true, active;
      }
      AddRecovered(id);
      active := active + {l.dirName};
      return true, active;
    }

    /** An entry without secrets from a durable lease. */
    method AddRecovered(id: string)
      requires id in leases && id !in entries && Mirrors() && Safe(leases[id].dirName) && !Blank(id)
      modifies this`entries
      ensures Mirrors() && entries.Keys == old(entries).Keys + {id}
      ensures forall e <- entries.Values :: e in old(entries.Values) || fresh(e)
    {
      var l := leases[id];
      var entry := new Entry(Dir(root, l.dirName), "", l.owner, l.buildStatus, l.createdAt, l.expiresAt, true);
      entries := entries[id := entry];
    }

    /** The loop over the directories under the root. */
    method RemoveOrphans(active: set<string>, env: Env) returns (ok: bool)
      modifies this`dirs
      ensures var orphans := set d <- old(dirs) | Safe(d) && d !in active;
        && (ok <==> orphans !! env.rm)
        && (ok ==> dirs == old(dirs) - orphans)
    {
      var left := dirs;
      while left != {}
        invariant left <= old(dirs)
        invariant dirs == old(dirs) - (set d <- old(dirs) | d !in left && Safe(d) && d !in active)
        invariant forall d <- old(dirs) - left :: Safe(d) && d !in active ==> d !in env.rm
      {
        var d :| d in left;
        left := left - {d};
        if !Safe(d) || d in active {
          continue;
        }
        if d in env.rm {
          return false;
        }
        dirs := dirs - {d};
      }
      return true;
    }
  }

  /** An unexpired entry of the owner asked for; an empty owner asks for all. */
  predicate Listed(entries: map<string, Entry>, s: Snapshot, owner: string, now: int) {
    && s.id in entries && now <= entries[s.id].expiresAt && (owner == "" || entries[s.id].owner == owner)
    && s == Snapshot(s.id, entries[s.id].owner, entries[s.id].expiresAt, entries[s.id].recovered)
  }

  function DirNames(entries: map<string, Entry>, ids: set<string>): set<string>
    requires ids <= entries.Keys
  {
    set id <- ids :: entries[id].dir.name
  }

  lemma DirNamesAdd(entries: map<string, Entry>, ids: set<string>, id: string)
    requires ids <= entries.Keys && id in entries
    ensures DirNames(entries, ids + {id}) == DirNames(entries, ids) + {entries[id].dir.name}
  {
  }

  predicate Restored(e: Entry, l: Lease, root: string) {
    && e.dir == Dir(root, l.dirName) && Safe(l.dirName) && e.recovered
    && e.owner == l.owner && e.expiresAt == l.expiresAt && e.buildStatus == l.buildStatus
  }
}
