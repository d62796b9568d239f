/**
 `storage.Store`: the statements it runs against the database, each of which may fail.

 A failure is a nondeterministic choice. A statement or commit whose error reaches the caller may
 still have taken effect on the server, so an error never proves that nothing changed.
 */
module Storage {
  import opened Basics
  import opened History
  import opened Batches
  import opened Retention
  import opened Model
  import opened SavedPoll

  // An open transaction: its run and the child rows inserted so far, invisible to others.
  class Tx {
    const runId: int
    var run: Run
    var cells: seq<Cell>

    constructor (runId: int, run: Run)
      ensures this.runId == runId && this.run == run && cells == []
    {
      this.runId := runId;
      this.run := run;
      cells := [];
    }
  }

  datatype SaveError = BeginFailed | StatementFailed | CommitFailed

  // What the schema and its sequences guarantee.
  ghost predicate Sound(t: Tables, nextRun: int, nextRow: int) {
    && Linked(t) && Indexed(t) && Stamped(t)
    && (forall id <- t.runs :: id < nextRun)
    && (forall k <- t.kids :: k.id < nextRow)
    && (forall a <- t.kids, b <- t.kids :: a.id == b.id ==> a == b)
  }

  lemma SoundPart(t: Tables, u: Tables, nextRun: int, nextRow: int)
    requires Sound(t, nextRun, nextRow) && SubTables(u, t) && Linked(u) && Indexed(u) && Stamped(u)
    ensures Sound(u, nextRun, nextRow)
  {
  }

  lemma DeleteRunsKeepsSound(t: Tables, ids: set<int>, nextRun: int, nextRow: int)
    requires Sound(t, nextRun, nextRow)
    ensures Sound(DeleteRuns(t, ids), nextRun, nextRow)
  {
    DeletesKeepShape(t, ids, RawPayloads, 0);
    SoundPart(t, DeleteRuns(t, ids), nextRun, nextRow);
  }

  lemma DeleteRawsKeepsSound(t: Tables, ids: set<int>, cutoff: int, nextRun: int, nextRow: int)
    requires Sound(t, nextRun, nextRow)
    ensures Sound(DeleteRaws(t, ids, cutoff), nextRun, nextRow)
  {
    DeletesKeepShape(t, ids, RawPayloads, cutoff);
    SoundPart(t, DeleteRaws(t, ids, cutoff), nextRun, nextRow);
  }

  lemma DropChunksKeepsSound(t: Tables, table: Table, cutoff: int, nextRun: int, nextRow: int)
    requires Sound(t, nextRun, nextRow)
    ensures Sound(DropChunks(t, table, cutoff), nextRun, nextRow)
  {
    DeletesKeepShape(t, {}, table, cutoff);
    SoundPart(t, DropChunks(t, table, cutoff), nextRun, nextRow);
  }

  lemma SavedPollIsSound(t: Tables, runId: int, base: int, result: PollResult, addrs: seq<Data>)
    requires Sound(t, runId, base) && multiset(addrs) == AddrBag(result.addrmap)
    ensures Sound(AddPoll(t, PollOf(result, runId, base, addrs)), runId + 1, base + |Payload(result, addrs)|)
    ensures Ordered(t) && ClockForward(result) ==> Ordered(AddPoll(t, PollOf(result, runId, base, addrs)))
  {
    BagMembers(addrs, result.addrmap);
    PollOfIsLinked(result, runId, base, addrs);
    PollOfIsIndexed(result, runId, base, addrs);
    PollOfIsStamped(result, runId, base, addrs);
    PollOfIsOrderedIffClockForward(result, runId, base, addrs);
    AddPollKeeps(t, PollOf(result, runId, base, addrs));
    PollOfHasUniqueIds(result, runId, base, addrs);
  }

  lemma PollOfHasUniqueIds(result: PollResult, runId: int, base: int, addrs: seq<Data>)
    ensures var kids := PollOf(result, runId, base, addrs).kids;
      forall a <- kids, b <- kids :: a.id == b.id ==> a == b
  {
  }

  ghost predicate Saved(t: Tables, result: PollResult, runId: int, base: int, addrs: seq<Data>, t': Tables) {
    && multiset(addrs) == AddrBag(result.addrmap)
    && t' == AddPoll(t, PollOf(result, runId, base, addrs))
  }

  class Store {
    var runs: map<int, Run>
    var kids: set<Child>
    var nextRun: int // the bigserial sequences; a rollback does not rewind them
    var nextRow: int
    ghost var calls: seq<Cmd> // the retention calls issued so far, in order

    function Db(): Tables
      reads this
    {
      Tables(runs, kids)
    }

    ghost predicate Valid()
      reads this
    {
      Sound(Db(), nextRun, nextRow)
    }

    constructor ()
      ensures Valid() && Db() == Tables(map[], {}) && Ordered(Db()) && calls == []
    {
      runs, kids, nextRun, nextRow, calls := map[], {}, 0, 0, [];
    }

    /*** SavePollResult ***/

    method Insert(tx: Tx, ghost base: int, observedAt: int, data: Data) returns (ok: bool)
      requires nextRow == base + |tx.cells|
      modifies tx`cells, this`nextRow
      ensures old(nextRow) <= nextRow
      ensures ok ==> nextRow == base + |tx.cells| && tx.cells == old(tx.cells) + [Cell(observedAt, data)]
    {
      ok := *;
      nextRow := nextRow + 1;
      if ok {
        tx.cells := tx.cells + [Cell(observedAt, data)];
      }
    }

    method InsertRawCommands(tx: Tx, ghost base: int, result: PollResult) returns (ok: bool)
      requires nextRow == base + |tx.cells|
      modifies tx`cells, this`nextRow
      ensures old(nextRow) <= nextRow
      ensures ok ==> nextRow == base + |tx.cells| && tx.cells == old(tx.cells) + RawCells(result.commands)
    {
      ok := true;
      for i := 0 to |result.commands|
        invariant old(nextRow) <= nextRow && nextRow == base + |tx.cells|
        invariant tx.cells == old(tx.cells) + RawCells(result.commands)[..i]
      {
        var c := result.commands[i];
        ok := Insert(tx, base, c.startedAt, Raw(c.command, c.err.None?, c.output, c.err));
        if !ok {
          return;
        }
      }
      ok := true;
    }

    method InsertHostmapEntries(tx: Tx, ghost base: int, result: PollResult, source: Source,
                                entries: seq<HostmapEntry>) returns (ok: bool)
      requires nextRow == base + |tx.cells|
      modifies tx`cells, this`nextRow
      ensures old(nextRow) <= nextRow
      ensures ok ==> nextRow == base + |tx.cells|
      ensures ok ==> tx.cells == old(tx.cells) + HostCells(result.startedAt, source, entries)
    {
      ok := true;
      for i := 0 to |entries|
        invariant old(nextRow) <= nextRow && nextRow == base + |tx.cells|
        invariant tx.cells == old(tx.cells) + HostCells(result.startedAt, source, entries)[..i]
      {
        var e := entries[i];
        var certName, fingerprint, groups := None, None, [];
        if e.cert.Some? {
          certName := NullableString(e.cert.value.name);
          fingerprint := NullableString(e.cert.value.fingerprint);
          groups := e.cert.value.groups;
        }
        ok := Insert(tx, base, result.startedAt,
                     Host(source, i, NullableString(PrimaryVPNAddr(e)), e.vpnAddrs, e.localIndex, e.remoteIndex,
                          certName, fingerprint, groups));
        if !ok {
          return;
        }
      }
      ok := true;
    }

    // The rows of one addrmap entry, its reporters taken in any order.
    method InsertReporters(tx: Tx, ghost base: int, startedAt: int, e: AddrmapEntry)
      returns (ok: bool, ghost addrs: seq<Data>)
      requires nextRow == base + |tx.cells|
      modifies tx`cells, this`nextRow
      ensures old(nextRow) <= nextRow
      ensures ok ==> nextRow == base + |tx.cells|
      ensures ok ==> tx.cells == old(tx.cells) + AddrCells(startedAt, addrs)
      ensures ok ==> multiset(addrs) == multiset(AddrRows(e))
    {
      ok, addrs := true, [];
      if |e.addrs| == 0 {
        addrs := [Addr(e.vpnAddr, None, [], [], [])];
        ok := Insert(tx, base, startedAt, Addr(e.vpnAddr, None, [], [], []));
        return;
      }
      var rest := e.addrs.Keys;
      while rest != {}
        invariant rest <= e.addrs.Keys
        invariant old(nextRow) <= nextRow && nextRow == base + |tx.cells|
        invariant tx.cells == old(tx.cells) + AddrCells(startedAt, addrs)
        invariant multiset(addrs) == multiset(set r | r in e.addrs && r !in rest :: ReporterData(e, r))
        decreases rest
      {
        var reporter :| reporter in rest;
        ghost var done := set r | r in e.addrs && r !in rest :: ReporterData(e, r);
        rest := rest - {reporter};
        var a := e.addrs[reporter];
        ok := Insert(tx, base, startedAt, Addr(e.vpnAddr, NullableString(reporter), a.learned, a.reported, a.relay));
        if !ok {
          return;
        }
        addrs := addrs + [ReporterData(e, reporter)];
        assert (set r | r in e.addrs && r !in rest :: ReporterData(e, r)) == done + {ReporterData(e, reporter)};
        assert ReporterData(e, reporter) !in done;
      }
      assert (set r | r in e.addrs && r !in rest :: ReporterData(e, r)) == AddrRows(e);
    }

    method InsertLighthouseAddrmap(tx: Tx, ghost base: int, result: PollResult)
      returns (ok: bool, ghost addrs: seq<Data>)
      requires nextRow == base + |tx.cells|
      modifies tx`cells, this`nextRow
      ensures old(nextRow) <= nextRow
      ensures ok ==> nextRow == base + |tx.cells|
      ensures ok ==> tx.cells == old(tx.cells) + AddrCells(result.startedAt, addrs)
      ensures ok ==> multiset(addrs) == AddrBag(result.addrmap)
    {
      ok, addrs := true, [];
      for i := 0 to |result.addrmap|
        invariant old(nextRow) <= nextRow && nextRow == base + |tx.cells|
        invariant tx.cells == old(tx.cells) + AddrCells(result.startedAt, addrs)
        invariant multiset(addrs) == AddrBag(result.addrmap[..i])
      {
        ghost var more;
        ok, more := InsertReporters(tx, base, result.startedAt, result.addrmap[i]);
        if !ok {
          return;
        }
        assert result.addrmap[..i + 1][..i] == result.addrmap[..i];
        AddrCellsAppend(result.startedAt, addrs, more);
        addrs := addrs + more;
      }
      assert result.addrmap[..|result.addrmap|] == result.addrmap;
      ok := true;
    }

    method InsertAll(tx: Tx, ghost base: int, result: PollResult) returns (ok: bool, ghost addrs: seq<Data>)
      requires nextRow == base + |tx.cells| && tx.cells == []
      modifies tx`cells, this`nextRow
      ensures old(nextRow) <= nextRow
      ensures ok ==> nextRow == base + |tx.cells| && tx.cells == Payload(result, addrs)
      ensures ok ==> multiset(addrs) == AddrBag(result.addrmap)
    {
      addrs := [];
      ok := InsertRawCommands(tx, base, result);
      ghost var raw := tx.cells;
      if ok {
        ok := InsertHostmapEntries(tx, base, result, Hostmap, result.hostmap);
      }
      ghost var hosts := tx.cells;
      if ok {
        assert raw == RawCells(result.commands);
        ok := InsertHostmapEntries(tx, base, result, Pending, result.pending);
      }
      ghost var pending := tx.cells;
      if ok {
        ok, addrs := InsertLighthouseAddrmap(tx, base, result);
      }
      if ok && |result.relays| > 0 {
        ok := Insert(tx, base, result.startedAt, Relays(result.relays));
      }
    }

    // All or nothing at every failure point; on success exactly the rows of the poll.
    method SavePollResult(result: PollResult) returns (err: Option<SaveError>, ghost addrs: seq<Data>)
      requires Valid()
      modifies this`runs, this`kids, this`nextRun, this`nextRow
      ensures Valid()
      ensures Db() == old(Db()) || Saved(old(Db()), result, old(nextRun), old(nextRow), addrs, Db())
      ensures err == None ==> Saved(old(Db()), result, old(nextRun), old(nextRow), addrs, Db())
      ensures err.Some? && err.value != CommitFailed ==> Db() == old(Db())
      ensures old(Ordered(Db())) && ClockForward(result) ==> Ordered(Db())
    {
      addrs := [];
      var ok: bool := *;
      if !ok {
        return Some(BeginFailed), addrs;
      }
      ok := *;
      var runId := nextRun;
      ghost var base := nextRow;
      nextRun := nextRun + 1;
      if !ok {
        return Some(StatementFailed), addrs;
      }
      var tx := new Tx(runId, Run(result.startedAt, None, result.lighthouse.name, Target(result.lighthouse),
                                  false, None, None));
      ok, addrs := InsertAll(tx, base, result);
      if !ok {
        return Some(StatementFailed), addrs;
      }
      ok := *;
      if !ok {
        return Some(StatementFailed), addrs;
      }
      tx.run := tx.run.(finishedAt := Some(result.finishedAt), success := result.err.None?, error := result.err,
                        nebulaVersion := NullableString(result.nebulaVersion));
      var committed, acknowledged: bool := *, *;
      if committed {
        SavedPollIsSound(Db(), runId, base, result, addrs);
        Commit(tx, base, result);
      }
      err := if committed && acknowledged then None else Some(CommitFailed);
    }

    // The server makes the transaction's rows visible, all at once.
    method Commit(tx: Tx, ghost base: int, result: PollResult)
      requires nextRow == base + |tx.cells|
      modifies this`runs, this`kids
      ensures runs == old(runs)[tx.runId := tx.run]
      ensures kids == old(kids) + Rows(base, tx.runId, result.lighthouse.name, tx.cells)
    {
      runs := runs[tx.runId := tx.run];
      kids := kids + Rows(nextRow - |tx.cells|, tx.runId, result.lighthouse.name, tx.cells);
    }

    /*** Retention statements ***/

    method DropChunksOf(table: Table, cutoff: int) returns (ok: bool)
      requires Valid()
      modifies this`kids, this`calls
      ensures Valid() && calls == old(calls) + [Drop(table, cutoff)]
      ensures ok ==> Db() == DropChunks(old(Db()), table, cutoff)
      ensures !ok ==> Db() == old(Db()) || Db() == DropChunks(old(Db()), table, cutoff)
    {
      calls := calls + [Drop(table, cutoff)];
      var applied: bool := *;
      ok := false;
      if applied {
        DropChunksKeepsSound(Db(), table, cutoff, nextRun, nextRow);
        kids := DropChunks(Db(), table, cutoff).kids;
        ok := *;
      }
    }

    // Two statements, not one transaction: list the oldest expired ids, then delete by id.
    method DeleteExpiredPollRuns(cutoff: int, batchSize: nat) returns (deleted: nat, ok: bool, ghost ids: set<int>)
      requires Valid() && batchSize > 0
      modifies this`runs, this`kids, this`calls
      ensures Valid() && calls == old(calls) + [RunBatches(cutoff)]
      ensures ok ==> deleted == |ids| && IsOldest(ids, ExpiredRuns(old(Db()), cutoff), batchSize, RunTime(old(Db())))
      ensures ok ==> Db() == DeleteRuns(old(Db()), ids)
      ensures !ok ==> ids <= ExpiredRuns(old(Db()), cutoff)
      ensures !ok ==> Db() == old(Db()) || Db() == DeleteRuns(old(Db()), ids)
    {
      calls := calls + [RunBatches(cutoff)];
      ids, deleted := {}, 0;
      ok := *;
      if !ok {
        return;
      }
      OldestExists(ExpiredRuns(Db(), cutoff), batchSize, RunTime(Db()));
      var listed :| listed <= ExpiredRuns(Db(), cutoff) &&
        IsOldest(listed, ExpiredRuns(Db(), cutoff), batchSize, RunTime(Db()));
      ids := listed;
      if |listed| == 0 {
        assert DeleteRuns(Db(), {}) == Db();
        return;
      }
      var applied: bool := *;
      ok := false;
      if applied {
        DeleteRunsKeepsSound(Db(), listed, nextRun, nextRow);
        ghost var before := Db();
        deleted := |runs.Keys * listed|;
        assert runs.Keys * listed == listed;
        kids := DeleteRuns(Db(), listed).kids;
        runs := runs - listed;
        assert Db() == DeleteRuns(before, listed);
        ok := *;
      }
    }

    method DeleteExpiredRawCommandPayloads(cutoff: int, batchSize: nat)
      returns (deleted: nat, ok: bool, ghost rows: set<Child>)
      requires Valid() && batchSize > 0
      modifies this`kids, this`calls
      ensures Valid() && calls == old(calls) + [RawBatches(cutoff)]
      ensures ok ==> IsOldest(rows, ExpiredRaws(old(Db()), cutoff), batchSize, RowTime())
      ensures ok ==> deleted == |old(kids) - kids|
      ensures ok ==> Db() == DeleteRaws(old(Db()), Ids(rows), cutoff)
      ensures !ok ==> Db() == old(Db()) || Db() == DeleteRaws(old(Db()), Ids(rows), cutoff)
    {
      calls := calls + [RawBatches(cutoff)];
      deleted := 0;
      OldestExists(ExpiredRaws(Db(), cutoff), batchSize, RowTime());
      var oldest :| oldest <= ExpiredRaws(Db(), cutoff) &&
        IsOldest(oldest, ExpiredRaws(Db(), cutoff), batchSize, RowTime());
      rows := oldest;
      var applied: bool := *;
      ok := false;
      if applied {
        DeleteRawsKeepsSound(Db(), Ids(oldest), cutoff, nextRun, nextRow);
        var left := DeleteRaws(Db(), Ids(oldest), cutoff).kids;
        deleted := |kids - left|;
        kids := left;
        ok := *;
      }
    }
  }
}
