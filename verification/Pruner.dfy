/** `retention.Pruner`: which store calls one prune makes, in which order, and what they leave. */
module Pruning {
  import opened Basics
  import opened History
  import opened Batches
  import opened Retention
  import opened Storage

  // Nothing a prune at `c` would keep is lost, and nothing is added.
  ghost predicate Absorbed(c: Cuts, before: Tables, after: Tables) {
    After(c, after) == After(c, before) && SubTables(after, before)
  }

  lemma AbsorbedTransitive(c: Cuts, t: Tables, u: Tables, v: Tables)
    requires Absorbed(c, t, u) && Absorbed(c, u, v)
    ensures Absorbed(c, t, v)
  {
    assert forall id <- v.runs :: id in u.runs && id in t.runs;
  }

  // What an earlier prune did, even if cut short, a later and wider one would have done anyway.
  lemma AbsorbedByLater(c1: Cuts, c2: Cuts, t: Tables, u: Tables)
    requires CutsLeq(c1, c2) && Absorbed(c1, t, u)
    ensures Absorbed(c2, t, u)
  {
    AfterAbsorbs(c1, c2, t);
    AfterAbsorbs(c1, c2, u);
  }

  function Repeat(cmd: Cmd, n: nat): seq<Cmd> {
    seq(n, i => cmd)
  }

  function CallsOf(cmd: Cmd, rawCalls: nat, runCalls: nat): seq<Cmd> {
    match cmd
    case Drop(_, _) => [cmd]
    case RawBatches(_) => Repeat(cmd, rawCalls)
    case RunBatches(_) => Repeat(cmd, runCalls)
  }

  // A program with each delete loop written out as its calls.
  function Calls(program: seq<Cmd>, rawCalls: nat, runCalls: nat): seq<Cmd> {
    if program == [] then []
    else CallsOf(program[0], rawCalls, runCalls) + Calls(program[1..], rawCalls, runCalls)
  }

  lemma {:induction false} CallsConcat(p: seq<Cmd>, q: seq<Cmd>, rawCalls: nat, runCalls: nat)
    ensures Calls(p + q, rawCalls, runCalls) == Calls(p, rawCalls, runCalls) + Calls(q, rawCalls, runCalls)
  {
    if p == [] {
      assert p + q == q;
    } else {
      assert (p + q)[0] == p[0] && (p + q)[1..] == p[1..] + q;
      CallsConcat(p[1..], q, rawCalls, runCalls);
      var head, mid := CallsOf(p[0], rawCalls, runCalls), Calls(p[1..], rawCalls, runCalls);
      var tail := Calls(q, rawCalls, runCalls);
      assert head + (mid + tail) == (head + mid) + tail;
    }
  }

  function Drops(tables: seq<Table>, cutoff: int): seq<Cmd> {
    seq(|tables|, i requires 0 <= i < |tables| => Drop(tables[i], cutoff))
  }

  lemma {:induction false} CallsOfStage(tables: seq<Table>, cutoff: int, loop: Cmd, rawCalls: nat, runCalls: nat)
    ensures Calls(Drops(tables, cutoff) + [loop], rawCalls, runCalls) ==
            Drops(tables, cutoff) + CallsOf(loop, rawCalls, runCalls)
  {
    if tables == [] {
      assert Drops(tables, cutoff) + [loop] == [loop];
      assert Calls([], rawCalls, runCalls) == [];
    } else {
      CallsOfStage(tables[1..], cutoff, loop, rawCalls, runCalls);
      assert Drops(tables, cutoff) == [Drop(tables[0], cutoff)] + Drops(tables[1..], cutoff);
      assert (Drops(tables, cutoff) + [loop])[1..] == Drops(tables[1..], cutoff) + [loop];
    }
  }

  // Hypertables dropped before the delete loop of each stage.
  function RawTables(cfg: Config): seq<Table> {
    if cfg.timescale then [RawPayloads] else []
  }

  function RunTables(cfg: Config): seq<Table> {
    if !cfg.timescale then []
    else (if cfg.rawPeriod == 0 then [RawPayloads] else []) + [HostmapEntries, AddrmapEntries, RelaySnapshots]
  }

  lemma ProgramStages(cfg: Config, now: int)
    ensures cfg.rawPeriod > 0 ==>
              RawProgram(cfg, now) == Drops(RawTables(cfg), now - cfg.rawPeriod) + [RawBatches(now - cfg.rawPeriod)]
    ensures cfg.period > 0 ==>
              RunProgram(cfg, now) == Drops(RunTables(cfg), now - cfg.period) + [RunBatches(now - cfg.period)]
  {
  }

  function RawStageCalls(cfg: Config, now: int, calls: nat): seq<Cmd> {
    if cfg.rawPeriod == 0 then []
    else Drops(RawTables(cfg), now - cfg.rawPeriod) + Repeat(RawBatches(now - cfg.rawPeriod), calls)
  }

  function RunStageCalls(cfg: Config, now: int, calls: nat): seq<Cmd> {
    if cfg.period == 0 then []
    else Drops(RunTables(cfg), now - cfg.period) + Repeat(RunBatches(now - cfg.period), calls)
  }

  lemma ProgramCalls(cfg: Config, now: int, rawCalls: nat, runCalls: nat)
    ensures Calls(Program(cfg, now), rawCalls, runCalls) ==
            RawStageCalls(cfg, now, rawCalls) + RunStageCalls(cfg, now, runCalls)
  {
    ProgramStages(cfg, now);
    CallsConcat(RawProgram(cfg, now), RunProgram(cfg, now), rawCalls, runCalls);
    if cfg.rawPeriod > 0 {
      CallsOfStage(RawTables(cfg), now - cfg.rawPeriod, RawBatches(now - cfg.rawPeriod), rawCalls, runCalls);
    }
    if cfg.period > 0 {
      CallsOfStage(RunTables(cfg), now - cfg.period, RunBatches(now - cfg.period), rawCalls, runCalls);
    }
  }

  lemma CallsAppend(made: seq<Cmd>, cfg: Config, now: int, rawCalls: nat, runCalls: nat)
    ensures made + RawStageCalls(cfg, now, rawCalls) + RunStageCalls(cfg, now, runCalls) ==
            made + Calls(Program(cfg, now), rawCalls, runCalls)
  {
    ProgramCalls(cfg, now, rawCalls, runCalls);
  }

  // Absorbed, and nothing expired left: exactly what the cutoffs keep.
  lemma AbsorbedAndClear(cfg: Config, now: int, t: Tables, u: Tables, v: Tables)
    requires Absorbed(CutsAt(cfg, now), t, v) && SubTables(v, u) && Linked(v)
    requires cfg.rawPeriod > 0 ==> ExpiredRaws(u, now - cfg.rawPeriod) == {}
    requires cfg.period > 0 ==> ExpiredRuns(v, now - cfg.period) == {}
    ensures v == After(CutsAt(cfg, now), t)
  {
    if cfg.rawPeriod > 0 {
      assert forall k <- v.kids :: k !in ExpiredRaws(u, now - cfg.rawPeriod);
    }
    AfterOfLive(CutsAt(cfg, now), v);
  }

  // Only the configuration that drops raw chunks at the run cutoff needs payloads to be no older than their run.
  ghost predicate Exactly(cfg: Config, now: int, before: Tables, after: Tables) {
    && SubTables(after, before)
    && ((NeedsClock(cfg) ==> Ordered(before)) ==> Absorbed(CutsAt(cfg, now), before, after))
  }

  lemma StagesCompose(cfg: Config, now: int, t: Tables, u: Tables, v: Tables)
    requires Linked(u) && Exactly(cfg, now, t, u) && Exactly(cfg, now, u, v)
    ensures Exactly(cfg, now, t, v)
  {
    assert forall id <- v.runs :: id in u.runs && id in t.runs;
    if NeedsClock(cfg) ==> Ordered(t) {
      AbsorbedTransitive(CutsAt(cfg, now), t, u, v);
    }
  }

  lemma StagesClear(cfg: Config, now: int, t: Tables, u: Tables, v: Tables)
    requires Linked(u) && Linked(v) && Exactly(cfg, now, t, u) && Exactly(cfg, now, u, v)
    requires cfg.rawPeriod > 0 ==> ExpiredRaws(u, now - cfg.rawPeriod) == {}
    requires cfg.period > 0 ==> ExpiredRuns(v, now - cfg.period) == {}
    ensures (NeedsClock(cfg) ==> Ordered(t)) ==> v == After(CutsAt(cfg, now), t)
  {
    StagesCompose(cfg, now, t, u, v);
    if NeedsClock(cfg) ==> Ordered(t) {
      AbsorbedAndClear(cfg, now, t, u, v);
    }
  }

  function DropAll(t: Tables, tables: seq<Table>, cutoff: int): Tables {
    if tables == [] then t
    else DropChunks(DropAll(t, tables[..|tables| - 1], cutoff), tables[|tables| - 1], cutoff)
  }

  lemma {:induction false} DropAllKeepsRuns(t: Tables, tables: seq<Table>, cutoff: int)
    ensures DropAll(t, tables, cutoff).runs == t.runs
    ensures ExpiredRuns(DropAll(t, tables, cutoff), cutoff) == ExpiredRuns(t, cutoff)
  {
    if tables == [] {
    } else {
      DropAllKeepsRuns(t, tables[..|tables| - 1], cutoff);
    }
  }

  // Raw payloads the delete loop finds: with TimescaleDB the chunk drop comes first.
  function RawsToDelete(cfg: Config, now: int, t: Tables): nat {
    var cutoff := now - cfg.rawPeriod;
    |ExpiredRaws(if cfg.timescale then DropChunks(t, RawPayloads, cutoff) else t, cutoff)|
  }

  lemma SameRunsExpire(t: Tables, u: Tables, cutoff: int)
    requires t.runs == u.runs
    ensures ExpiredRuns(t, cutoff) == ExpiredRuns(u, cutoff)
  {
  }

  // The two delete functions `deleteBatches` is called with.
  datatype Target = RawTarget | RunTarget

  function TargetCuts(target: Target, cutoff: int): Cuts {
    match target
    case RawTarget => Cuts(None, Some(cutoff))
    case RunTarget => Cuts(Some(cutoff), None)
  }

  function TargetCmd(target: Target, cutoff: int): Cmd {
    match target
    case RawTarget => RawBatches(cutoff)
    case RunTarget => RunBatches(cutoff)
  }

  function ExpiredCount(target: Target, t: Tables, cutoff: int): nat {
    match target
    case RawTarget => |ExpiredRaws(t, cutoff)|
    case RunTarget => |ExpiredRuns(t, cutoff)|
  }

  lemma RunBatchAbsorbed(t: Tables, ids: set<int>, cutoff: int)
    requires ids <= ExpiredRuns(t, cutoff)
    ensures Absorbed(TargetCuts(RunTarget, cutoff), t, t)
    ensures Absorbed(TargetCuts(RunTarget, cutoff), t, DeleteRuns(t, ids))
  {
    DeleteRunsKeepsAfter(TargetCuts(RunTarget, cutoff), t, ids);
  }

  lemma RawBatchAbsorbed(t: Tables, ids: set<int>, cutoff: int)
    ensures Absorbed(TargetCuts(RawTarget, cutoff), t, t)
    ensures Absorbed(TargetCuts(RawTarget, cutoff), t, DeleteRaws(t, ids, cutoff))
  {
    DeleteRawsKeepsAfter(TargetCuts(RawTarget, cutoff), t, ids, cutoff);
  }

  lemma RawBatchCount(t: Tables, rows: set<Child>, cutoff: int)
    requires IsOldest(rows, ExpiredRaws(t, cutoff), BATCH_SIZE, RowTime())
    requires forall a <- t.kids, b <- t.kids :: a.id == b.id ==> a == b
    ensures var after := DeleteRaws(t, Ids(rows), cutoff);
      && |t.kids - after.kids| == |rows|
      && |ExpiredRaws(after, cutoff)| == |ExpiredRaws(t, cutoff)| - |rows|
  {
    RawBatchExact(t, rows, cutoff, BATCH_SIZE);
    RawBatchWithUniqueIds(t, rows, cutoff, BATCH_SIZE);
    RemovedCount(ExpiredRaws(t, cutoff), rows);
    assert t.kids - DeleteRaws(t, Ids(rows), cutoff).kids == rows;
  }

  lemma RemovedCount(all: set<Child>, rows: set<Child>)
    requires rows <= all
    ensures |all - rows| == |all| - |rows|
  {
    assert all == rows + (all - rows);
  }

  // After a pass at `now` over tables that were once `first`: nothing it keeps is lost, and if it
  // succeeded exactly what it keeps of `first` is left.
  ghost predicate Passed(cfg: Config, now: int, ok: bool, first: Tables, left: Tables) {
    && Absorbed(CutsAt(cfg, now), first, left)
    && (ok ==> left == After(CutsAt(cfg, now), first))
  }

  lemma PassesCompose(cfg: Config, now1: int, now2: int, ok1: bool, ok2: bool, t: Tables, u: Tables, v: Tables)
    requires now1 <= now2 && Passed(cfg, now1, ok1, t, u) && Passed(cfg, now2, ok2, u, v)
    ensures Passed(cfg, now2, ok2, t, v)
  {
    AbsorbedByLater(CutsAt(cfg, now1), CutsAt(cfg, now2), t, u);
    AbsorbedTransitive(CutsAt(cfg, now2), t, u, v);
  }

  class Pruner {
    const cfg: Config
    const store: Store

    constructor (cfg: Config, store: Store)
      ensures this.cfg == cfg && this.store == store
    {
      this.cfg := cfg;
      this.store := store;
    }

    method DeleteBatch(target: Target, cutoff: int) returns (deleted: nat, ok: bool)
      requires store.Valid()
      modifies store`runs, store`kids, store`calls
      ensures store.Valid() && store.calls == old(store.calls) + [TargetCmd(target, cutoff)]
      ensures Absorbed(TargetCuts(target, cutoff), old(store.Db()), store.Db())
      ensures target.RawTarget? ==> store.runs == old(store.runs)
      ensures ok ==> deleted == Min(BATCH_SIZE, ExpiredCount(target, old(store.Db()), cutoff))
      ensures ok ==> ExpiredCount(target, store.Db(), cutoff) ==
                     ExpiredCount(target, old(store.Db()), cutoff) - deleted
    {
      ghost var t := store.Db();
      match target {
        case RawTarget =>
          ghost var rows;
          deleted, ok, rows := store.DeleteExpiredRawCommandPayloads(cutoff, BATCH_SIZE);
          RawBatchAbsorbed(t, Ids(rows), cutoff);
          if ok {
            RawBatchCount(t, rows, cutoff);
          }
        case RunTarget =>
          ghost var ids;
          deleted, ok, ids := store.DeleteExpiredPollRuns(cutoff, BATCH_SIZE);
          RunBatchAbsorbed(t, ids, cutoff);
          if ok {
            RunBatchExact(t, ids, cutoff, BATCH_SIZE);
          }
      }
    }

    // Deletes until a batch comes back short. On success nothing expired is left, after exactly
    // n / 1000 + 1 calls for n expired rows; an error or a cancelled context stops it early.
    method DeleteBatches(target: Target, cutoff: int) returns (ok: bool, ghost calls: nat)
      requires store.Valid()
      modifies store`runs, store`kids, store`calls
      ensures store.Valid() && store.calls == old(store.calls) + Repeat(TargetCmd(target, cutoff), calls)
      ensures Absorbed(TargetCuts(target, cutoff), old(store.Db()), store.Db())
      ensures target.RawTarget? ==> store.runs == old(store.runs)
      ensures ok ==> ExpiredCount(target, store.Db(), cutoff) == 0
      ensures ok ==> calls == ExpiredCount(target, old(store.Db()), cutoff) / BATCH_SIZE + 1
    {
      ghost var t := store.Db();
      ghost var n := ExpiredCount(target, t, cutoff);
      ghost var c := TargetCuts(target, cutoff);
      calls := 0;
      while true
        invariant store.Valid() && Absorbed(c, t, store.Db())
        invariant target.RawTarget? ==> store.runs == old(store.runs)
        invariant ExpiredCount(target, store.Db(), cutoff) == n - calls * BATCH_SIZE
        invariant store.calls == old(store.calls) + Repeat(TargetCmd(target, cutoff), calls)
        decreases ExpiredCount(target, store.Db(), cutoff)
      {
        var cancelled: bool := *;
        if cancelled {
          return false, calls;
        }
        ghost var u := store.Db();
        var deleted;
        deleted, ok := DeleteBatch(target, cutoff);
        AbsorbedTransitive(c, t, u, store.Db());
        assert Repeat(TargetCmd(target, cutoff), calls + 1) ==
               Repeat(TargetCmd(target, cutoff), calls) + [TargetCmd(target, cutoff)];
        calls := calls + 1;
        if !ok {
          return false, calls;
        }
        if deleted < BATCH_SIZE {
          return true, calls;
        }
      }
    }

    method DropTables(tables: seq<Table>, cutoff: int, ghost c: Cuts, ghost forward: bool) returns (ok: bool)
      requires store.Valid()
      requires forall table <- tables :: DropWithin(c, table, cutoff) && DropTimed(c, table, cutoff, forward)
      modifies store`kids, store`calls
      ensures store.Valid()
      ensures ok ==> store.calls == old(store.calls) + Drops(tables, cutoff)
      ensures ok ==> store.Db() == DropAll(old(store.Db()), tables, cutoff)
      ensures SubTables(store.Db(), old(store.Db()))
      ensures (forward ==> Ordered(old(store.Db()))) ==> Absorbed(c, old(store.Db()), store.Db())
    {
      ok := true;
      ghost var t := store.Db();
      for i := 0 to |tables|
        invariant store.Valid() && SubTables(store.Db(), t)
        invariant store.calls == old(store.calls) + Drops(tables, cutoff)[..i]
        invariant store.Db() == DropAll(t, tables[..i], cutoff)
        invariant (forward ==> Ordered(t)) ==> Timed(store.Db(), forward) && Absorbed(c, t, store.Db())
      {
        ghost var u := store.Db();
        DeletesKeepShape(u, {}, tables[i], cutoff);
        if forward ==> Ordered(u) {
          DropChunksKeepsAfter(c, u, tables[i], cutoff, forward);
        }
        assert tables[..i + 1][..i] == tables[..i];
        ok := store.DropChunksOf(tables[i], cutoff);
        if !ok {
          return;
        }
      }
      assert tables[..|tables|] == tables;
      ok := true;
    }

    // The chunk drops and the delete loop of one stage; the loop's calls depend on what the drops left.
    method Stage(target: Target, tables: seq<Table>, cutoff: int, ghost c: Cuts, ghost forward: bool)
      returns (ok: bool, ghost calls: nat)
      requires store.Valid()
      requires forall table <- tables :: DropWithin(c, table, cutoff) && DropTimed(c, table, cutoff, forward)
      requires CutsLeq(TargetCuts(target, cutoff), c)
      modifies store`runs, store`kids, store`calls
      ensures store.Valid()
      ensures ok ==> store.calls == old(store.calls) + Drops(tables, cutoff) + Repeat(TargetCmd(target, cutoff), calls)
      ensures ok ==> ExpiredCount(target, store.Db(), cutoff) == 0
      ensures ok ==> calls == ExpiredCount(target, DropAll(old(store.Db()), tables, cutoff), cutoff) / BATCH_SIZE + 1
      ensures target.RawTarget? ==> store.runs == old(store.runs)
      ensures (forward ==> Ordered(old(store.Db()))) ==> Absorbed(c, old(store.Db()), store.Db())
      ensures SubTables(store.Db(), old(store.Db()))
    {
      ghost var t := store.Db();
      ok, calls := true, 0;
      ok := DropTables(tables, cutoff, c, forward);
      if !ok {
        return;
      }
      ghost var u := store.Db();
      ok, calls := DeleteBatches(target, cutoff);
      AbsorbedByLater(TargetCuts(target, cutoff), c, u, store.Db());
      if forward ==> Ordered(t) {
        AbsorbedTransitive(c, t, u, store.Db());
      }
    }

    method PruneRaws(now: int) returns (ok: bool, ghost calls: nat)
      requires store.Valid()
      modifies store`runs, store`kids, store`calls
      ensures store.Valid() && Exactly(cfg, now, old(store.Db()), store.Db())
      ensures store.runs == old(store.runs)
      ensures ok && cfg.rawPeriod > 0 ==> ExpiredRaws(store.Db(), now - cfg.rawPeriod) == {}
      ensures ok && cfg.rawPeriod > 0 ==> calls == RawsToDelete(cfg, now, old(store.Db())) / BATCH_SIZE + 1
      ensures ok ==> store.calls == old(store.calls) + RawStageCalls(cfg, now, calls)
    {
      ok, calls := true, 0;
      if cfg.rawPeriod > 0 {
        var tables := if cfg.timescale then [RawPayloads] else [];
        ghost var t := store.Db();
        ok, calls := Stage(RawTarget, tables, now - cfg.rawPeriod, CutsAt(cfg, now), NeedsClock(cfg));
        assert DropAll(t, tables, now - cfg.rawPeriod) ==
               if cfg.timescale then DropChunks(t, RawPayloads, now - cfg.rawPeriod) else t;
      }
    }

    method PruneRuns(now: int) returns (ok: bool, ghost calls: nat)
      requires store.Valid()
      modifies store`runs, store`kids, store`calls
      ensures store.Valid() && Exactly(cfg, now, old(store.Db()), store.Db())
      ensures ok && cfg.period > 0 ==> ExpiredRuns(store.Db(), now - cfg.period) == {}
      ensures ok && cfg.period > 0 ==> calls == |ExpiredRuns(old(store.Db()), now - cfg.period)| / BATCH_SIZE + 1
      ensures ok ==> store.calls == old(store.calls) + RunStageCalls(cfg, now, calls)
    {
      ok, calls := true, 0;
      if cfg.period > 0 {
        var tables := [];
        if cfg.timescale {
          tables := [HostmapEntries, AddrmapEntries, RelaySnapshots];
          if cfg.rawPeriod == 0 {
            tables := [RawPayloads] + tables;
          }
        }
        DropAllKeepsRuns(store.Db(), tables, now - cfg.period);
        ok, calls := Stage(RunTarget, tables, now - cfg.period, CutsAt(cfg, now), NeedsClock(cfg));
      }
    }

    // One retention pass at `now`. If it succeeds it made exactly the calls of its program, n / 1000 + 1
    // in each delete loop for the n rows expired when the loop began, and left exactly what its cutoffs
    // keep, with or without chunk dropping; if it fails, whatever it deleted had expired.
    method Prune(now: int) returns (ok: bool, ghost rawCalls: nat, ghost runCalls: nat)
      requires store.Valid()
      modifies store`runs, store`kids, store`calls
      ensures store.Valid() && Exactly(cfg, now, old(store.Db()), store.Db())
      ensures ok && (NeedsClock(cfg) ==> Ordered(old(store.Db()))) ==>
                store.Db() == After(CutsAt(cfg, now), old(store.Db()))
      ensures ok ==> store.calls == old(store.calls) + Calls(Program(cfg, now), rawCalls, runCalls)
      ensures ok && cfg.rawPeriod > 0 ==> rawCalls == RawsToDelete(cfg, now, old(store.Db())) / BATCH_SIZE + 1
      ensures ok && cfg.period > 0 ==> runCalls == |ExpiredRuns(old(store.Db()), now - cfg.period)| / BATCH_SIZE + 1
    {
      ghost var t := store.Db();
      runCalls := 0;
      ok, rawCalls := PruneRaws(now);
      if ok {
        ghost var u := store.Db();
        ok, runCalls := PruneRuns(now);
        StagesCompose(cfg, now, t, u, store.Db());
        if ok {
          StagesClear(cfg, now, t, u, store.Db());
          CallsAppend(old(store.calls), cfg, now, rawCalls, runCalls);
          SameRunsExpire(t, u, now - cfg.period);
        }
      }
    }

    // Pruning again and again at later and later times, some passes failing: every pass that succeeds
    // leaves what it alone would have left, and one that fails loses nothing the next would keep.
    method Run(nows: seq<int>) returns (oks: seq<bool>, ghost states: seq<Tables>)
      requires store.Valid() && (NeedsClock(cfg) ==> Ordered(store.Db()))
      requires forall i, j | 0 <= i < j < |nows| :: nows[i] <= nows[j]
      modifies store`runs, store`kids, store`calls
      ensures store.Valid() && |oks| == |nows| && |states| == |nows|
      ensures store.Db() == if nows == [] then old(store.Db()) else states[|nows| - 1]
      ensures forall i | 0 <= i < |nows| :: Passed(cfg, nows[i], oks[i], old(store.Db()), states[i])
    {
      ghost var t := store.Db();
      oks, states := [], [];
      for i := 0 to |nows|
        invariant store.Valid() && |oks| == |states| == i
        invariant NeedsClock(cfg) ==> Ordered(store.Db())
        invariant store.Db() == if i == 0 then t else states[i - 1]
        invariant forall j | 0 <= j < i :: Passed(cfg, nows[j], oks[j], t, states[j])
      {
        ghost var u := store.Db();
        ghost var rawCalls, runCalls;
        var ok;
        ok, rawCalls, runCalls := Prune(nows[i]);
        if i > 0 {
          PassesCompose(cfg, nows[i - 1], nows[i], oks[i - 1], ok, t, u, store.Db());
        }
        oks := oks + [ok];
        states := states + [store.Db()];
      }
    }
  }
}
