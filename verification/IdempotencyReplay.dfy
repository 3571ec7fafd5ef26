/** What a caller gets who retries a mutation with its idempotency key after the server
    has recovered: the lookup, and its answers over every run of restarts. */
module IdempotencyReplay {
  import opened Common
  import opened Recovery
  import opened RecoveryServer
  import opened RecoveryRuns
  import opened RecoveryJournal
  import opened RecoveryWorld

  datatype Replayed = NoRecord | Conflict | Answer(result: string)

  /** The in-memory results kept next to the table. */
  class IdempotencyStore {
    const ttl: int
    var table: Results
    var entries: Results

    constructor (ttl: int, table: Results)
      ensures this.ttl == ttl && this.table == table && entries == map[]
    {
      this.ttl, this.table, entries := ttl, table, map[];
    }

    /** An expired row is deleted and not returned. */
    method LookupMutation(caller: string, tool: string, key: string, now: int) returns (r: Option<StoredResult>)
      modifies this`table
      ensures var slot := (caller, tool, key);
        if slot in old(table) && ttl > 0 && now - old(table)[slot].createdAt > ttl
        then r == None && table == old(table) - {slot}
        else r == Lookup(old(table), slot) && table == old(table)
    {
      if (caller, tool, key) !in table {
        return None;
      }
      var e := table[(caller, tool, key)];
      if ttl > 0 {
        if now - e.createdAt > ttl {
          table := table - {(caller, tool, key)};
          return None;
        }
      }
      return Some(e);
    }

    method Prune(now: int)
      modifies this`entries
      ensures entries == map s | s in old(entries) && (ttl <= 0 || now - old(entries)[s].createdAt <= ttl) :: old(entries)[s]
    {
      if ttl <= 0 {
        return;
      }
      var left := entries.Keys;
      while left != {}
        invariant left <= old(entries).Keys
        invariant entries == map s | s in old(entries) && (s in left || now - old(entries)[s].createdAt <= ttl) :: old(entries)[s]
      {
        var s :| s in left;
        left := left - {s};
        if now - entries[s].createdAt > ttl {
          entries := entries - {s};
        }
      }
    }

    /** The table first, then memory; a stored result under another request hash is a
        conflict. */
    method Replay(caller: string, tool: string, key: string, requestHash: string, now: int) returns (r: Replayed)
      modifies this
      ensures key == "" ==> r == NoRecord && table == old(table) && entries == old(entries)
      ensures var slot := (caller, tool, key);
        var stored := if slot in old(table) && (ttl <= 0 || now - old(table)[slot].createdAt <= ttl) then Some(old(table)[slot])
                      else if slot in old(entries) && (ttl <= 0 || now - old(entries)[slot].createdAt <= ttl) then Some(old(entries)[slot])
                      else None;
        key != "" ==> r == if stored.None? then NoRecord
                           else if stored.value.requestHash != requestHash then Conflict
                           else Answer(stored.value.result)
      ensures old(entries) == map[] ==> r == Retry(old(table), ttl, caller, tool, key, requestHash, now)
    {
      if key == "" {
        return NoRecord;
      }
      var found := LookupMutation(caller, tool, key, now);
      if found.Some? {
        if found.value.requestHash != requestHash {
          return Conflict;
        }
        return Answer(found.value.result);
      }
      Prune(now);
      if (caller, tool, key) !in entries {
        return NoRecord;
      }
      var e := entries[(caller, tool, key)];
      if e.requestHash != requestHash {
        return Conflict;
      }
      return Answer(e.result);
    }
  }

  /** A retry against a server that has just started: nothing is in memory. */
  function Retry(table: Results, ttl: int, caller: string, tool: string, key: string, requestHash: string, now: int): Replayed {
    var slot := (caller, tool, key);
    if key == "" || slot !in table || (ttl > 0 && now - table[slot].createdAt > ttl) then NoRecord
    else if table[slot].requestHash != requestHash then Conflict
    else Answer(table[slot].result)
  }

  /** Over every run of restarts and any rows: wherever the table changed, it holds the
      request hash, the result and the time of a landed row with that caller, tool and
      key. */
  lemma StoredResultsAreReceipts(root: Path, w: World, rs: seq<Restart>, end: World, caller: string, tool: string, key: string)
    requires Reaches(root, w, rs, end)
    requires Lookup(end.results, (caller, tool, key)) != Lookup(w.results, (caller, tool, key))
    ensures (caller, tool, key) in end.results
    ensures exists id <- w.journal ::
      && EverAttempted(root, w, rs, id, true)
      && w.journal[id].payload.Some? && w.journal[id].payload.value.receipt.Some?
      && var receipt, stored := w.journal[id].payload.value.receipt.value, end.results[(caller, tool, key)];
      && receipt.caller == caller && receipt.tool == tool && receipt.key == key && receipt.result != ""
      && stored.requestHash == receipt.requestHash && stored.result == receipt.result
      && stored.createdAt == w.journal[id].updatedAt
  {
    JournalFollowsVerdicts(root, w, rs, end);
    assert EverFilled(root, w, rs, end, (caller, tool, key));
  }

  /** A row that is marked after the run was either settled as rolled back, or a retry of
      its request, within the retention time, is answered from the receipt of a landed row
      with the same caller, tool and key: with that row's result for that row's request,
      and with a conflict for any other. */
  lemma RetryAfterRecovery(root: Path, w: World, rs: seq<Restart>, end: World, id: string)
    requires Reaches(root, w, rs, end) && id in w.journal && id in end.journal && end.journal[id] != w.journal[id]
    requires w.journal[id].payload.Some? && w.journal[id].payload.value.receipt.Some?
    requires w.journal[id].payload.value.receipt.value.result != "" && w.journal[id].payload.value.receipt.value.key != ""
    ensures EverAttempted(root, w, rs, id, false) || exists d <- w.journal ::
      && EverAttempted(root, w, rs, d, true)
      && w.journal[d].payload.Some? && w.journal[d].payload.value.receipt.Some?
      && var mine, theirs := w.journal[id].payload.value.receipt.value, w.journal[d].payload.value.receipt.value;
      && theirs.caller == mine.caller && theirs.tool == mine.tool && theirs.key == mine.key
      && forall hash, ttl: int, now: int :: ttl <= 0 || now - w.journal[d].updatedAt <= ttl ==>
           Retry(end.results, ttl, mine.caller, mine.tool, mine.key, hash, now)
             == if hash == theirs.requestHash then Answer(theirs.result) else Conflict
  {
    JournalFollowsVerdicts(root, w, rs, end);
    var mine := w.journal[id].payload.value.receipt.value;
    if !EverAttempted(root, w, rs, id, false) {
      assert EverMarked(root, w, rs, end, id);
      assert EverFilled(root, w, rs, end, (mine.caller, mine.tool, mine.key));
      var d :| d in Active(w) && EverAttempted(root, w, rs, d, true) && Owes(w.journal[d]) && Slot(w.journal[d]) == (mine.caller, mine.tool, mine.key)
        && Lookup(end.results, (mine.caller, mine.tool, mine.key)) == Some(StoredFor(w.journal[d]));
      StoredIsReplayed(end.results, w.journal[d], mine.caller, mine.tool, mine.key);
      assert d in w.journal;
    }
  }

  lemma StoredIsReplayed(table: Results, e: Entry, caller: string, tool: string, key: string)
    requires Owes(e) && Slot(e) == (caller, tool, key) && key != "" && Lookup(table, (caller, tool, key)) == Some(StoredFor(e))
    ensures var q := e.payload.value.receipt.value;
      && q.caller == caller && q.tool == tool && q.key == key
      && forall hash, ttl: int, now: int :: ttl <= 0 || now - e.updatedAt <= ttl ==>
           Retry(table, ttl, caller, tool, key, hash, now) == if hash == q.requestHash then Answer(q.result) else Conflict
  {
  }

  /** A landed row after a restart that nothing disturbs, with a complete receipt under a
      key of its own: the caller's retry gets the result in the receipt, and the same key
      with another request gets a conflict. */
  lemma UndisturbedRestartReplays(root: Path, w0: World, rs: seq<Restart>, w: World, r: Restart, id: string)
    requires Independent(root, w0) && Reaches(root, w0, rs, w)
    requires forall i <- r.order :: i in w.journal
    requires forall i <- Active(w) :: i in r.order && Uninterrupted(w.journal[i], r.faults(i))
    requires |r.commits| >= |r.order| && forall f <- r.commits :: f == NoFault
    requires id in w0.journal && w0.journal[id].state in {"in_progress", "file_written"}
    requires w0.journal[id].kind in {"content_write", "bundle_write"} && w0.journal[id].payload.Some?
    requires Classify(root, w0.journal[id], w0.files) == AtAfter && CleanupAllowed(root, w0.journal[id])
    requires w0.journal[id].payload.value.receipt.Some?
    requires var q := w0.journal[id].payload.value.receipt.value;
      q.caller != "" && q.tool != "" && q.key != "" && q.requestHash != "" && q.result != ""
    requires forall d <- w0.journal | d != id && w0.journal[d].payload.Some? && w0.journal[d].payload.value.receipt.Some? ::
      var q, x := w0.journal[id].payload.value.receipt.value, w0.journal[d].payload.value.receipt.value;
      x.caller != q.caller || x.tool != q.tool || x.key != q.key
    ensures var q, end := w0.journal[id].payload.value.receipt.value, Step(root, w, r);
      && id in end.journal && end.journal[id].state == "reconciled"
      && forall hash, ttl: int, now: int :: ttl <= 0 || now - w0.journal[id].updatedAt <= ttl ==>
           Retry(end.results, ttl, q.caller, q.tool, q.key, hash, now) == if hash == q.requestHash then Answer(q.result) else Conflict
  {
    UndisturbedRestartSettles(root, w0, rs, w, r, id);
    var q, end := w0.journal[id].payload.value.receipt.value, Step(root, w, r);
    var slot := (q.caller, q.tool, q.key);
    assert RecoveryWorld.Filled(root, w0, end, slot);
    var d :| d in Active(w0) && StoresFor(root, w0, end, d, slot);
    assert d == id;
  }
}
