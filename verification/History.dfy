/**
 The five history tables and what each SQL statement of the collector does to them.

 Times are integers in microseconds, PostgreSQL's resolution. The four child tables are held
 as one set of rows; the kind of a row's data says which table it lives in (`TableOf`).
 */
module History {
  import opened Basics

  const DAY: int := 86_400_000_000

  datatype Source = Hostmap | Pending

  datatype Run = Run(
    startedAt: int,
    finishedAt: Option<int>,
    lighthouse: string,
    sshTarget: string,
    success: bool,
    error: Option<string>,
    nebulaVersion: Option<string>)

  datatype Data =
    | Raw(command: string, success: bool, output: string, error: Option<string>)
    | Host(source: Source, entryIndex: nat, primary: Option<string>, vpnAddrs: seq<string>,
           localIndex: nat, remoteIndex: nat, certName: Option<string>, fingerprint: Option<string>,
           certGroups: seq<string>)
    | Addr(vpnAddr: string, reporter: Option<string>, learned: seq<string>, reported: seq<string>,
           relay: seq<string>)
    | Relays(relays: string)

  datatype Table = RawPayloads | HostmapEntries | AddrmapEntries | RelaySnapshots

  datatype Child = Child(id: int, runId: int, observedAt: int, lighthouse: string, data: Data)

  datatype Tables = Tables(runs: map<int, Run>, kids: set<Child>)

  function TableOf(d: Data): Table {
    match d
    case Raw(_, _, _, _) => RawPayloads
    case Host(_, _, _, _, _, _, _, _, _) => HostmapEntries
    case Addr(_, _, _, _, _) => AddrmapEntries
    case Relays(_) => RelaySnapshots
  }

  /*** What the schema and the save path keep true of the tables ***/

  // Foreign keys, and the lighthouse name a child row copies from its run.
  ghost predicate Linked(t: Tables) {
    forall k <- t.kids :: k.runId in t.runs && k.lighthouse == t.runs[k.runId].lighthouse
  }

  // No child row was observed before its run started.
  ghost predicate Ordered(t: Tables) {
    forall k <- t.kids :: k.runId in t.runs ==> t.runs[k.runId].startedAt <= k.observedAt
  }

  // All but raw payloads carry the start time of their run.
  ghost predicate Stamped(t: Tables) {
    forall k <- t.kids :: !k.data.Raw? && k.runId in t.runs ==> k.observedAt == t.runs[k.runId].startedAt
  }

  // What is known of a row's time: raw payloads are ordered only while clocks run forward.
  ghost predicate Timed(t: Tables, forward: bool) {
    Stamped(t) && (forward ==> Ordered(t))
  }

  // Within one run and source, an entry index names one hostmap row.
  ghost predicate Indexed(t: Tables) {
    forall a <- t.kids, b <- t.kids ::
      (a.data.Host? && b.data.Host? && a.runId == b.runId &&
       a.data.source == b.data.source && a.data.entryIndex == b.data.entryIndex) ==> a == b
  }

  ghost predicate SubTables(a: Tables, b: Tables) {
    && (forall id <- a.runs :: id in b.runs && a.runs[id] == b.runs[id])
    && a.kids <= b.kids
  }

  /*** One committed save ***/

  datatype Poll = Poll(id: int, run: Run, kids: set<Child>)

  ghost predicate PollLinked(p: Poll) {
    forall k <- p.kids :: k.runId == p.id && k.lighthouse == p.run.lighthouse
  }

  ghost predicate PollOrdered(p: Poll) {
    forall k <- p.kids :: p.run.startedAt <= k.observedAt
  }

  ghost predicate PollStamped(p: Poll) {
    forall k <- p.kids :: !k.data.Raw? ==> k.observedAt == p.run.startedAt
  }

  ghost predicate PollTimed(p: Poll, forward: bool) {
    PollStamped(p) && (forward ==> PollOrdered(p))
  }

  ghost predicate PollIndexed(p: Poll) {
    Indexed(Tables(map[], p.kids))
  }

  function AddPoll(t: Tables, p: Poll): Tables {
    Tables(t.runs[p.id := p.run], t.kids + p.kids)
  }

  lemma AddPollKeeps(t: Tables, p: Poll)
    requires Linked(t) && PollLinked(p) && p.id !in t.runs
    ensures Linked(AddPoll(t, p))
    ensures Ordered(t) && PollOrdered(p) ==> Ordered(AddPoll(t, p))
    ensures Stamped(t) && PollStamped(p) ==> Stamped(AddPoll(t, p))
    ensures Indexed(t) && PollIndexed(p) ==> Indexed(AddPoll(t, p))
    ensures SubTables(t, AddPoll(t, p))
  {
    assert forall k <- t.kids :: k.runId != p.id;
  }

  /*** The deleting statements ***/

  // DELETE FROM poll_runs WHERE id = ANY(ids), with ON DELETE CASCADE.
  function DeleteRuns(t: Tables, ids: set<int>): Tables {
    Tables(t.runs - ids, set k <- t.kids | k.runId !in ids)
  }

  // DELETE FROM raw_command_payloads WHERE observed_at < cutoff AND id IN ids.
  function DeleteRaws(t: Tables, ids: set<int>, cutoff: int): Tables {
    Tables(t.runs, set k <- t.kids | !(k.data.Raw? && k.observedAt < cutoff && k.id in ids))
  }

  // The rows such a statement matches: those it sees when it runs its subquery.
  function Matched(t: Tables, batch: set<Child>, cutoff: int): set<Child> {
    set k <- ExpiredRaws(t, cutoff) | k.id in Ids(batch)
  }

  // What it deletes of them: those that are still there.
  function DeleteRows(t: Tables, rows: set<Child>): Tables {
    t.(kids := t.kids - rows)
  }

  lemma DeleteRawsIsMatched(t: Tables, batch: set<Child>, cutoff: int)
    ensures DeleteRaws(t, Ids(batch), cutoff) == DeleteRows(t, Matched(t, batch, cutoff))
  {
  }

  // The end of the one-day chunk that holds a time; `/` rounds down for negative times too.
  function ChunkEnd(time: int): int {
    (time / DAY + 1) * DAY
  }

  // drop_chunks(table, older_than => cutoff): a chunk goes when all of it lies before the cutoff.
  function DropChunks(t: Tables, table: Table, cutoff: int): Tables {
    Tables(t.runs, set k <- t.kids | !(TableOf(k.data) == table && ChunkEnd(k.observedAt) <= cutoff))
  }

  function ExpiredRuns(t: Tables, cutoff: int): set<int> {
    set id <- t.runs | t.runs[id].startedAt < cutoff
  }

  function ExpiredRaws(t: Tables, cutoff: int): set<Child> {
    set k <- t.kids | k.data.Raw? && k.observedAt < cutoff
  }

  function Ids(rows: set<Child>): set<int> {
    set k <- rows :: k.id
  }

  /*** The exact effect of retention ***/

  // Cutoffs of one retention run; None is a period of 0, "keep forever".
  datatype Cuts = Cuts(runs: Option<int>, raws: Option<int>)

  predicate RunLive(c: Cuts, r: Run) {
    c.runs.Some? ==> r.startedAt >= c.runs.value
  }

  function LiveRuns(c: Cuts, runs: map<int, Run>): (live: map<int, Run>)
    ensures forall id :: id in live <==> id in runs && RunLive(c, runs[id])
    ensures forall id <- live :: live[id] == runs[id]
  {
    map id | id in runs && RunLive(c, runs[id]) :: runs[id]
  }

  predicate RawLive(c: Cuts, k: Child) {
    c.raws.Some? && k.data.Raw? ==> k.observedAt >= c.raws.value
  }

  predicate KidLive(c: Cuts, t: Tables, k: Child) {
    k.runId in t.runs && RunLive(c, t.runs[k.runId]) && RawLive(c, k)
  }

  // A run survives iff it is live; a raw payload iff it and its run are; any other row iff its run is.
  function After(c: Cuts, t: Tables): Tables {
    Tables(LiveRuns(c, t.runs),
           set k <- t.kids | KidLive(c, t, k))
  }

  predicate NoLater(a: Option<int>, b: Option<int>) {
    a.Some? ==> b.Some? && a.value <= b.value
  }

  // c2 deletes at least what c1 deletes.
  predicate CutsLeq(c1: Cuts, c2: Cuts) {
    NoLater(c1.runs, c2.runs) && NoLater(c1.raws, c2.raws)
  }

  lemma AfterIsPart(c: Cuts, t: Tables)
    ensures SubTables(After(c, t), t)
    ensures Linked(t) ==> Linked(After(c, t))
    ensures Ordered(t) ==> Ordered(After(c, t))
    ensures Stamped(t) ==> Stamped(After(c, t))
    ensures Indexed(t) ==> Indexed(After(c, t))
  {
  }

  // A later prune absorbs an earlier one.
  lemma AfterAbsorbs(c1: Cuts, c2: Cuts, t: Tables)
    requires CutsLeq(c1, c2)
    ensures After(c2, After(c1, t)) == After(c2, t)
  {
    var one := After(c1, t);
    assert After(c2, one).runs.Keys == After(c2, t).runs.Keys;
    assert After(c2, one).runs == After(c2, t).runs;
    assert After(c2, one).kids == After(c2, t).kids;
  }

  // Tables with nothing expired are left alone.
  lemma AfterOfLive(c: Cuts, t: Tables)
    requires Linked(t)
    requires c.runs.Some? ==> ExpiredRuns(t, c.runs.value) == {}
    requires c.raws.Some? ==> ExpiredRaws(t, c.raws.value) == {}
    ensures After(c, t) == t
  {
    assert c.runs.Some? ==> forall id <- t.runs :: id !in ExpiredRuns(t, c.runs.value);
    assert c.raws.Some? ==> forall k <- t.kids :: k !in ExpiredRaws(t, c.raws.value);
    assert forall id <- t.runs :: RunLive(c, t.runs[id]);
    assert After(c, t).runs == t.runs;
    assert After(c, t).kids == t.kids;
  }

  lemma AfterHasNoneExpired(c: Cuts, t: Tables)
    ensures c.runs.Some? ==> ExpiredRuns(After(c, t), c.runs.value) == {}
    ensures c.raws.Some? ==> ExpiredRaws(After(c, t), c.raws.value) == {}
  {
    assert c.runs.Some? ==> forall id :: id !in ExpiredRuns(After(c, t), c.runs.value);
    assert c.raws.Some? ==> forall k :: k !in ExpiredRaws(After(c, t), c.raws.value);
  }

  /*** Each deleting statement, aimed at expired rows, leaves that effect unchanged ***/

  lemma DeleteRunsKeepsAfter(c: Cuts, t: Tables, ids: set<int>)
    requires forall id <- ids :: id in t.runs ==> !RunLive(c, t.runs[id])
    ensures After(c, DeleteRuns(t, ids)) == After(c, t)
  {
    var d := DeleteRuns(t, ids);
    assert forall id :: id in d.runs <==> id in t.runs && id !in ids;
    assert forall id :: id in LiveRuns(c, d.runs) <==> id in LiveRuns(c, t.runs);
    assert After(c, d).runs == After(c, t).runs;
    assert After(c, d).kids == After(c, t).kids;
  }

  lemma DeleteRawsKeepsAfter(c: Cuts, t: Tables, ids: set<int>, cutoff: int)
    requires NoLater(Some(cutoff), c.raws)
    ensures After(c, DeleteRaws(t, ids, cutoff)) == After(c, t)
  {
    var d := DeleteRaws(t, ids, cutoff);
    assert After(c, d).runs == After(c, t).runs;
    assert After(c, d).kids == After(c, t).kids;
  }

  ghost predicate AllExpiredRaws(rows: set<Child>, cutoff: int) {
    forall k <- rows :: k.data.Raw? && k.observedAt < cutoff
  }

  lemma DeleteRowsKeepsAfter(c: Cuts, t: Tables, rows: set<Child>, cutoff: int)
    requires NoLater(Some(cutoff), c.raws) && AllExpiredRaws(rows, cutoff)
    ensures After(c, DeleteRows(t, rows)) == After(c, t)
  {
    assert After(c, DeleteRows(t, rows)).kids == After(c, t).kids;
  }

  // Which cutoffs justify dropping a table's chunks: raw payloads may go early, the rest with their run.
  predicate DropWithin(c: Cuts, table: Table, cutoff: int) {
    NoLater(Some(cutoff), c.runs) || (table == RawPayloads && NoLater(Some(cutoff), c.raws))
  }

  // Raw chunks dropped at the run cutoff need the clock; all other drops do not.
  predicate DropTimed(c: Cuts, table: Table, cutoff: int, forward: bool) {
    table == RawPayloads && !NoLater(Some(cutoff), c.raws) ==> forward
  }

  lemma DropChunksKeepsAfter(c: Cuts, t: Tables, table: Table, cutoff: int, forward: bool)
    requires Timed(t, forward)
    requires DropWithin(c, table, cutoff) && DropTimed(c, table, cutoff, forward)
    ensures After(c, DropChunks(t, table, cutoff)) == After(c, t)
  {
    var d := DropChunks(t, table, cutoff);
    assert After(c, d).runs == After(c, t).runs;
    forall k <- t.kids | TableOf(k.data) == table && ChunkEnd(k.observedAt) <= cutoff
      ensures !KidLive(c, t, k)
    {
      ChunkHolds(k.observedAt);
    }
    assert After(c, d).kids == After(c, t).kids;
  }

  lemma ChunkHolds(time: int)
    ensures ChunkEnd(time) - DAY <= time < ChunkEnd(time)
    ensures DAY == 24 * 3600 * 1_000_000 && ChunkEnd(time) % DAY == 0
  {
  }

  // Expired rows that survive a chunk drop share the chunk that holds the cutoff, and so are
  // less than a day older than it.
  lemma DropChunksRemainder(t: Tables, table: Table, cutoff: int, k: Child)
    requires k in DropChunks(t, table, cutoff).kids && TableOf(k.data) == table
    requires k.observedAt < cutoff
    ensures k.observedAt / DAY == cutoff / DAY
    ensures cutoff - DAY < k.observedAt
  {
    ChunkHolds(k.observedAt);
    ChunkHolds(cutoff);
  }

  // No child row's chunk ends before its run starts.
  ghost predicate ChunksReachRuns(t: Tables, table: Table) {
    forall k <- t.kids | TableOf(k.data) == table && k.runId in t.runs ::
      t.runs[k.runId].startedAt < ChunkEnd(k.observedAt)
  }

  ghost predicate DropIsExact(t: Tables, table: Table, cutoff: int) {
    After(Cuts(Some(cutoff), None), DropChunks(t, table, cutoff)) == After(Cuts(Some(cutoff), None), t)
  }

  // Dropping a table's chunks at its runs' cutoff is exact for every cutoff exactly when every chunk
  // reaches past the start of the runs it serves.
  lemma DropIsExactIffChunksReachRuns(t: Tables, table: Table)
    ensures (forall cutoff :: DropIsExact(t, table, cutoff)) <==> ChunksReachRuns(t, table)
  {
    if ChunksReachRuns(t, table) {
      forall cutoff
        ensures DropIsExact(t, table, cutoff)
      {
        var c := Cuts(Some(cutoff), None);
        assert After(c, DropChunks(t, table, cutoff)).runs == After(c, t).runs;
        assert After(c, DropChunks(t, table, cutoff)).kids == After(c, t).kids;
      }
    } else {
      var k :| k in t.kids && TableOf(k.data) == table && k.runId in t.runs &&
        t.runs[k.runId].startedAt >= ChunkEnd(k.observedAt);
      var cutoff := ChunkEnd(k.observedAt);
      assert k in After(Cuts(Some(cutoff), None), t).kids;
      assert k !in DropChunks(t, table, cutoff).kids;
      assert !DropIsExact(t, table, cutoff);
    }
  }

  lemma DeletesKeepShape(t: Tables, ids: set<int>, table: Table, cutoff: int)
    requires Linked(t)
    ensures var d, r, c := DeleteRuns(t, ids), DeleteRaws(t, ids, cutoff), DropChunks(t, table, cutoff);
      && Linked(d) && Linked(r) && Linked(c)
      && (Ordered(t) ==> Ordered(d) && Ordered(r) && Ordered(c))
      && (Stamped(t) ==> Stamped(d) && Stamped(r) && Stamped(c))
      && (Indexed(t) ==> Indexed(d) && Indexed(r) && Indexed(c))
  {
  }

  lemma DeleteRowsKeepsShape(t: Tables, rows: set<Child>)
    requires Linked(t)
    ensures Linked(DeleteRows(t, rows)) && SubTables(DeleteRows(t, rows), t)
    ensures Ordered(t) ==> Ordered(DeleteRows(t, rows))
    ensures Stamped(t) ==> Stamped(DeleteRows(t, rows))
    ensures Indexed(t) ==> Indexed(DeleteRows(t, rows))
  {
  }

  // Saving commutes with pruning: what a save adds survives or not by its own times alone.
  lemma AddPollKeepsAfterEqual(c: Cuts, t: Tables, u: Tables, p: Poll)
    requires Linked(t) && Linked(u) && p.id !in t.runs && p.id !in u.runs && PollLinked(p)
    requires After(c, t) == After(c, u)
    ensures After(c, AddPoll(t, p)) == After(c, AddPoll(u, p))
  {
    AfterAddPoll(c, t, p);
    AfterAddPoll(c, u, p);
  }

  lemma AfterAddPoll(c: Cuts, t: Tables, p: Poll)
    requires Linked(t) && p.id !in t.runs
    ensures After(c, AddPoll(t, p)).runs ==
            After(c, t).runs + (if RunLive(c, p.run) then map[p.id := p.run] else map[])
    ensures After(c, AddPoll(t, p)).kids ==
            After(c, t).kids + set k <- p.kids | KidLive(c, AddPoll(t, p), k)
  {
    var a := AddPoll(t, p);
    forall k <- t.kids
      ensures KidLive(c, a, k) == KidLive(c, t, k)
    {
      assert k.runId != p.id;
    }
  }
}
