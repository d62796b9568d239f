/**
 Retention as a transition system.

 Any number of prunes run beside any number of saves. Each SQL statement is one step, but deleting a
 batch is two: for runs the statements that list ids and delete by id, for raw payloads the subquery
 that matches rows and the delete, which skips rows another statement has deleted since. `saved` is a history variable:
 everything that was ever committed, as if nothing had been pruned.
 */
module Retention {
  import opened Basics
  import opened History
  import opened Batches

  const BATCH_SIZE: nat := 1000

  datatype Config = Config(period: nat, rawPeriod: nat, timescale: bool)

  // The statements of one prune; the two delete loops are one command each.
  datatype Cmd = Drop(table: Table, cutoff: int) | RawBatches(cutoff: int) | RunBatches(cutoff: int)

  function CutsAt(cfg: Config, now: int): Cuts {
    Cuts(if cfg.period > 0 then Some(now - cfg.period) else None,
         if cfg.rawPeriod > 0 then Some(now - cfg.rawPeriod) else None)
  }

  function RawProgram(cfg: Config, now: int): seq<Cmd> {
    if cfg.rawPeriod == 0 then [] else
    var cutoff := now - cfg.rawPeriod;
    (if cfg.timescale then [Drop(RawPayloads, cutoff)] else []) + [RawBatches(cutoff)]
  }

  function RunProgram(cfg: Config, now: int): seq<Cmd> {
    if cfg.period == 0 then [] else
    var cutoff := now - cfg.period;
    (if cfg.timescale && cfg.rawPeriod == 0 then [Drop(RawPayloads, cutoff)] else []) +
    (if cfg.timescale
     then [Drop(HostmapEntries, cutoff), Drop(AddrmapEntries, cutoff), Drop(RelaySnapshots, cutoff)] else []) +
    [RunBatches(cutoff)]
  }

  function Program(cfg: Config, now: int): seq<Cmd> {
    RawProgram(cfg, now) + RunProgram(cfg, now)
  }

  // What retention keeps, in its own words: a run iff its period is 0 or it is no older; a raw payload iff
  // its run stays and its own period is 0 or it is no older; any other row iff its run stays.
  lemma KeptIff(cfg: Config, now: int, t: Tables, id: int, k: Child)
    ensures var kept := After(CutsAt(cfg, now), t);
      && (id in kept.runs <==> id in t.runs && (cfg.period == 0 || t.runs[id].startedAt >= now - cfg.period))
      && (k in kept.kids <==> k in t.kids && k.runId in kept.runs &&
                              (k.data.Raw? ==> cfg.rawPeriod == 0 || k.observedAt >= now - cfg.rawPeriod))
  {
  }

  // Which chunks a prune drops: raw payloads at their own cutoff if they have one, and else with the
  // other three tables at the cutoff of the runs; none without TimescaleDB.
  lemma DropsIff(cfg: Config, now: int, table: Table, cutoff: int)
    ensures Drop(table, cutoff) in Program(cfg, now) <==>
            && cfg.timescale
            && ((table == RawPayloads && cfg.rawPeriod > 0 && cutoff == now - cfg.rawPeriod) ||
                (cfg.period > 0 && cutoff == now - cfg.period && (table == RawPayloads ==> cfg.rawPeriod == 0)))
  {
    var raws, runs := RawProgram(cfg, now), RunProgram(cfg, now);
    assert Drop(table, cutoff) in Program(cfg, now) <==> Drop(table, cutoff) in raws || Drop(table, cutoff) in runs;
    if cfg.timescale && cfg.period > 0 {
      var n := |runs|;
      assert runs[n - 4] == Drop(HostmapEntries, now - cfg.period);
      assert runs[n - 3] == Drop(AddrmapEntries, now - cfg.period);
      assert runs[n - 2] == Drop(RelaySnapshots, now - cfg.period);
      assert cfg.rawPeriod == 0 ==> runs[0] == Drop(RawPayloads, now - cfg.period);
    }
    if cfg.timescale && cfg.rawPeriod > 0 {
      assert raws[0] == Drop(RawPayloads, now - cfg.rawPeriod);
    }
  }

  // The command deletes nothing that `c` keeps, provided clocks run forward if `forward` says so.
  predicate CmdWithin(c: Cuts, forward: bool, cmd: Cmd) {
    match cmd
    case Drop(table, cutoff) => DropWithin(c, table, cutoff) && DropTimed(c, table, cutoff, forward)
    case RawBatches(cutoff) => NoLater(Some(cutoff), c.raws)
    case RunBatches(cutoff) => NoLater(Some(cutoff), c.runs)
  }

  // The one configuration that drops raw chunks at the run cutoff.
  predicate NeedsClock(cfg: Config) {
    cfg.timescale && cfg.rawPeriod == 0 && cfg.period > 0
  }

  predicate PruneWithin(cfg: Config, now: int, c: Cuts, forward: bool) {
    CutsLeq(CutsAt(cfg, now), c) && (NeedsClock(cfg) ==> forward)
  }

  lemma ProgramWithin(cfg: Config, now: int, c: Cuts, forward: bool)
    requires PruneWithin(cfg, now, c, forward)
    ensures forall cmd <- Program(cfg, now) :: CmdWithin(c, forward, cmd)
  {
  }

  /*** States and steps ***/

  // One call of Prune: what it still has to do, the run ids it has listed and the raw payloads its
  // statement has matched, neither yet deleted.
  datatype Prune = Prune(todo: seq<Cmd>, listed: Option<set<int>>, matched: Option<set<Child>>, stopped: bool)

  datatype Sys = Sys(db: Tables, saved: Tables, used: set<int>, prunes: seq<Prune>, limit: nat, forward: bool)

  datatype Step =
    | Save(poll: Poll)
    | Start(cfg: Config, now: int)
    | DropStep(who: nat)
    | MatchStep(who: nat, batch: set<Child>)
    | RawStep(who: nat)
    | ListStep(who: nat, ids: set<int>)
    | DeleteStep(who: nat)
    | Stop(who: nat) // an error or a cancelled context ends the prune

  predicate Doing(s: Sys, who: nat) {
    who < |s.prunes| && s.prunes[who].todo != []
  }

  function Head(s: Sys, who: nat): Cmd
    requires Doing(s, who)
  {
    s.prunes[who].todo[0]
  }

  ghost predicate Enabled(s: Sys, e: Step) {
    match e
    case Save(p) => p.id !in s.used && PollLinked(p) && PollTimed(p, s.forward) && PollIndexed(p)
    case Start(_, _) => true
    case DropStep(who) => Doing(s, who) && Head(s, who).Drop?
    case MatchStep(who, batch) =>
      && Doing(s, who) && Head(s, who).RawBatches? && s.prunes[who].matched.None?
      && IsOldest(batch, ExpiredRaws(s.db, Head(s, who).cutoff), s.limit, RowTime())
    case RawStep(who) => Doing(s, who) && Head(s, who).RawBatches? && s.prunes[who].matched.Some?
    case ListStep(who, ids) =>
      && Doing(s, who) && Head(s, who).RunBatches? && s.prunes[who].listed.None?
      && IsOldest(ids, ExpiredRuns(s.db, Head(s, who).cutoff), s.limit, RunTime(s.db))
    case DeleteStep(who) => Doing(s, who) && Head(s, who).RunBatches? && s.prunes[who].listed.Some?
    case Stop(who) => Doing(s, who)
  }

  // On with the command, or with the next one; nothing is listed or matched.
  function Next(p: Prune, done: bool): Prune
    requires p.todo != []
  {
    p.(todo := if done then p.todo[1..] else p.todo, listed := None, matched := None)
  }

  function Became(s: Sys, who: nat, db: Tables, p: Prune): Sys
    requires who < |s.prunes|
  {
    s.(db := db, prunes := s.prunes[who := p])
  }

  function Apply(s: Sys, e: Step): Sys
    requires Enabled(s, e)
  {
    match e
    case Save(p) =>
      s.(db := AddPoll(s.db, p), saved := AddPoll(s.saved, p), used := s.used + {p.id})
    case Start(cfg, now) =>
      s.(prunes := s.prunes + [Prune(Program(cfg, now), None, None, false)])
    case DropStep(who) =>
      Became(s, who, DropChunks(s.db, Head(s, who).table, Head(s, who).cutoff), Next(s.prunes[who], true))
    case MatchStep(who, batch) =>
      Became(s, who, s.db, s.prunes[who].(matched := Some(Matched(s.db, batch, Head(s, who).cutoff))))
    case RawStep(who) =>
      var rows := s.prunes[who].matched.value;
      var deleted := |s.db.kids * rows|;
      Became(s, who, DeleteRows(s.db, rows), Next(s.prunes[who], deleted < s.limit))
    case ListStep(who, ids) =>
      Became(s, who, s.db, if ids == {} then Next(s.prunes[who], true) else s.prunes[who].(listed := Some(ids)))
    case DeleteStep(who) =>
      var ids := s.prunes[who].listed.value;
      var deleted := |s.db.runs.Keys * ids|;
      Became(s, who, DeleteRuns(s.db, ids), Next(s.prunes[who], deleted < s.limit))
    case Stop(who) => Became(s, who, s.db, Prune([], None, None, true))
  }

  ghost predicate IsRun(s: Sys, steps: seq<Step>)
    decreases |steps|
  {
    steps == [] || (Enabled(s, steps[0]) && IsRun(Apply(s, steps[0]), steps[1..]))
  }

  ghost function End(s: Sys, steps: seq<Step>): Sys
    requires IsRun(s, steps)
    decreases |steps|
  {
    if steps == [] then s else End(Apply(s, steps[0]), steps[1..])
  }

  lemma Chain(s: Sys, e: Step, t: Sys, rest: seq<Step>)
    requires Enabled(s, e) && Apply(s, e) == t && IsRun(t, rest)
    ensures IsRun(s, [e] + rest) && End(s, [e] + rest) == End(t, rest)
  {
    var steps := [e] + rest;
    assert steps[0] == e && steps[1..] == rest;
  }

  ghost predicate Init(s: Sys) {
    && Linked(s.db) && Timed(s.db, s.forward) && Indexed(s.db)
    && s.saved == s.db && s.used == s.db.runs.Keys && s.prunes == [] && s.limit > 0
  }

  /*** Invariants of every run ***/

  // A listed id names an expired run for as long as it names a run at all.
  ghost predicate ListExpired(s: Sys, ids: set<int>, cutoff: int) {
    && ids <= s.used
    && forall id <- ids :: id in s.db.runs ==> s.db.runs[id].startedAt < cutoff
  }

  ghost predicate ListedExpired(s: Sys) {
    forall w: nat | w < |s.prunes| && s.prunes[w].listed.Some? ::
      && s.prunes[w].todo != [] && s.prunes[w].todo[0].RunBatches?
      && ListExpired(s, s.prunes[w].listed.value, s.prunes[w].todo[0].cutoff)
  }

  // Matched rows are expired raw payloads.
  ghost predicate MatchedExpired(s: Sys) {
    forall w: nat | w < |s.prunes| && s.prunes[w].matched.Some? ::
      && s.prunes[w].todo != [] && s.prunes[w].todo[0].RawBatches?
      && AllExpiredRaws(s.prunes[w].matched.value, s.prunes[w].todo[0].cutoff)
  }

  ghost predicate Shape(s: Sys) {
    && Linked(s.db) && Timed(s.db, s.forward) && Indexed(s.db)
    && Linked(s.saved) && Timed(s.saved, s.forward) && Indexed(s.saved)
    && SubTables(s.db, s.saved) && s.saved.runs.Keys <= s.used && s.limit > 0
  }

  ghost predicate Inv(s: Sys) {
    Shape(s) && ListedExpired(s) && MatchedExpired(s)
  }

  lemma SaveKeepsShape(s: Sys, p: Poll)
    requires Shape(s) && Enabled(s, Save(p))
    ensures Shape(Apply(s, Save(p)))
  {
    AddPollKeeps(s.db, p);
    AddPollKeeps(s.saved, p);
  }

  lemma StepKeepsShape(s: Sys, e: Step)
    requires Inv(s) && Enabled(s, e)
    ensures Shape(Apply(s, e))
  {
    match e
    case Save(p) => SaveKeepsShape(s, p);
    case Start(_, _) =>
    case DropStep(who) => DeletesKeepShape(s.db, {}, Head(s, who).table, Head(s, who).cutoff);
    case MatchStep(_, _) =>
    case RawStep(who) => DeleteRowsKeepsShape(s.db, s.prunes[who].matched.value);
    case ListStep(_, _) =>
    case DeleteStep(who) => DeletesKeepShape(s.db, s.prunes[who].listed.value, RawPayloads, 0);
    case Stop(_) =>
  }

  // Ids are never reused and runs never change, so what was expired stays so.
  lemma ListStays(s: Sys, e: Step, ids: set<int>, cutoff: int)
    requires Inv(s) && Enabled(s, e) && ListExpired(s, ids, cutoff)
    ensures ListExpired(Apply(s, e), ids, cutoff)
  {
    assert forall id <- ids :: id in s.used;
  }

  lemma ListIsExpired(s: Sys, e: Step)
    requires Inv(s) && Enabled(s, e) && e.ListStep?
    ensures ListExpired(Apply(s, e), e.ids, Head(s, e.who).cutoff)
  {
    assert forall id <- e.ids :: id in s.db.runs && id in s.saved.runs;
  }

  lemma StepKeepsListed(s: Sys, e: Step)
    requires Inv(s) && Enabled(s, e)
    ensures ListedExpired(Apply(s, e))
  {
    var s' := Apply(s, e);
    forall w: nat | w < |s'.prunes| && s'.prunes[w].listed.Some?
      ensures s'.prunes[w].todo != [] && s'.prunes[w].todo[0].RunBatches?
      ensures ListExpired(s', s'.prunes[w].listed.value, s'.prunes[w].todo[0].cutoff)
    {
      if e.ListStep? && e.who == w {
        ListIsExpired(s, e);
      } else {
        assert w < |s.prunes| && s.prunes[w] == s'.prunes[w];
        ListStays(s, e, s.prunes[w].listed.value, s.prunes[w].todo[0].cutoff);
      }
    }
  }

  lemma StepKeepsMatched(s: Sys, e: Step)
    requires Inv(s) && Enabled(s, e)
    ensures MatchedExpired(Apply(s, e))
  {
    var s' := Apply(s, e);
    forall w: nat | w < |s'.prunes| && s'.prunes[w].matched.Some?
      ensures s'.prunes[w].todo != [] && s'.prunes[w].todo[0].RawBatches?
      ensures AllExpiredRaws(s'.prunes[w].matched.value, s'.prunes[w].todo[0].cutoff)
    {
      if !(e.MatchStep? && e.who == w) {
        assert w < |s.prunes| && s.prunes[w] == s'.prunes[w];
      }
    }
  }

  lemma StepKeepsInv(s: Sys, e: Step)
    requires Inv(s) && Enabled(s, e)
    ensures Inv(Apply(s, e))
  {
    StepKeepsShape(s, e);
    StepKeepsListed(s, e);
    StepKeepsMatched(s, e);
  }

  // At every step, with any number of prunes: a run that vanishes was expired for the prune that
  // deleted it, and a child vanishes only with its run, as an expired raw payload, or in a chunk
  // wholly before the cutoff.
  lemma StepDeletesOnlyExpired(s: Sys, e: Step)
    requires Inv(s) && Enabled(s, e)
    ensures forall id <- s.db.runs :: id !in Apply(s, e).db.runs ==>
      e.DeleteStep? && s.db.runs[id].startedAt < Head(s, e.who).cutoff
    ensures forall id <- s.db.runs :: id in Apply(s, e).db.runs ==> Apply(s, e).db.runs[id] == s.db.runs[id]
    ensures forall k <- s.db.kids :: k !in Apply(s, e).db.kids ==>
      || (e.DeleteStep? && k.runId !in Apply(s, e).db.runs)
      || (e.RawStep? && k.data.Raw? && k.observedAt < Head(s, e.who).cutoff)
      || (e.DropStep? && TableOf(k.data) == Head(s, e.who).table && ChunkEnd(k.observedAt) <= Head(s, e.who).cutoff)
  {
  }

  // What each deleting step leaves: a drop every row but those of the table's chunks before the cutoff,
  // a raw delete every row but those its statement matched, a run delete every run but the listed ones
  // and every row but theirs. Other steps of a prune delete nothing.
  lemma StepLeaves(s: Sys, e: Step, id: int, k: Child)
    requires Enabled(s, e) && !e.Save?
    ensures id in Apply(s, e).db.runs <==>
            id in s.db.runs && (e.DeleteStep? ==> id !in s.prunes[e.who].listed.value)
    ensures k in Apply(s, e).db.kids <==>
            && k in s.db.kids
            && (e.DropStep? ==>
                  TableOf(k.data) != Head(s, e.who).table || ChunkEnd(k.observedAt) > Head(s, e.who).cutoff)
            && (e.RawStep? ==> k !in s.prunes[e.who].matched.value)
            && (e.DeleteStep? ==> k.runId !in s.prunes[e.who].listed.value)
  {
  }

  // A loop goes on exactly when its batch came out full.
  lemma LoopGoesOnIff(s: Sys, e: Step)
    requires Enabled(s, e) && (e.RawStep? || e.DeleteStep?)
    ensures Apply(s, e).prunes[e.who].todo == s.prunes[e.who].todo <==>
            s.limit <= if e.RawStep? then |s.db.kids * s.prunes[e.who].matched.value|
                       else |s.db.runs.Keys * s.prunes[e.who].listed.value|
  {
  }

  lemma {:induction false} RunKeepsInv(s: Sys, steps: seq<Step>)
    requires Inv(s) && IsRun(s, steps)
    ensures Inv(End(s, steps)) && End(s, steps).forward == s.forward
    decreases |steps|
  {
    if steps == [] {
    } else {
      StepKeepsInv(s, steps[0]);
      RunKeepsInv(Apply(s, steps[0]), steps[1..]);
    }
  }

  /*** Pruning is absorbed: it never changes what a prune at `c` would leave ***/

  ghost predicate Commanded(s: Sys, c: Cuts, forward: bool) {
    forall w: nat | w < |s.prunes| :: forall cmd <- s.prunes[w].todo :: CmdWithin(c, forward, cmd)
  }

  ghost predicate Covered(s: Sys, c: Cuts) {
    After(c, s.db) == After(c, s.saved) && Commanded(s, c, s.forward)
  }

  // Every prune deletes at most what `c` does, and the one that needs the clock has it.
  ghost predicate StartsWithin(steps: seq<Step>, c: Cuts, forward: bool) {
    forall e <- steps :: e.Start? ==> PruneWithin(e.cfg, e.now, c, forward)
  }

  lemma StepKeepsCmds(s: Sys, e: Step, c: Cuts, forward: bool)
    requires Enabled(s, e) && Commanded(s, c, forward)
    requires e.Start? ==> PruneWithin(e.cfg, e.now, c, forward)
    ensures Commanded(Apply(s, e), c, forward)
  {
    if e.Start? {
      ProgramWithin(e.cfg, e.now, c, forward);
    }
  }

  lemma StepKeepsCovered(s: Sys, e: Step, c: Cuts)
    requires Inv(s) && Enabled(s, e) && Covered(s, c)
    requires e.Start? ==> PruneWithin(e.cfg, e.now, c, s.forward)
    ensures Covered(Apply(s, e), c)
  {
    StepKeepsCmds(s, e, c, s.forward);
    match e
    case Save(p) => AddPollKeepsAfterEqual(c, s.db, s.saved, p);
    case Start(_, _) =>
    case DropStep(who) =>
      assert CmdWithin(c, s.forward, Head(s, who));
      DropChunksKeepsAfter(c, s.db, Head(s, who).table, Head(s, who).cutoff, s.forward);
    case MatchStep(_, _) =>
    case RawStep(who) =>
      assert CmdWithin(c, s.forward, Head(s, who));
      DeleteRowsKeepsAfter(c, s.db, s.prunes[who].matched.value, Head(s, who).cutoff);
    case ListStep(who, _) =>
    case DeleteStep(who) =>
      assert CmdWithin(c, s.forward, Head(s, who));
      DeleteRunsKeepsAfter(c, s.db, s.prunes[who].listed.value);
    case Stop(who) =>
  }

  lemma {:induction false} RunKeepsCovered(s: Sys, steps: seq<Step>, c: Cuts)
    requires Inv(s) && IsRun(s, steps) && Covered(s, c) && StartsWithin(steps, c, s.forward)
    ensures Covered(End(s, steps), c)
    decreases |steps|
  {
    if steps == [] {
    } else {
      StepKeepsInv(s, steps[0]);
      StepKeepsCovered(s, steps[0], c);
      RunKeepsCovered(Apply(s, steps[0]), steps[1..], c);
    }
  }

  // Doing every save of a run and no pruning.
  ghost function Saves(t: Tables, steps: seq<Step>): Tables
    decreases |steps|
  {
    if steps == [] then t
    else Saves(if steps[0].Save? then AddPoll(t, steps[0].poll) else t, steps[1..])
  }

  lemma {:induction false} SavedIsSaves(s: Sys, steps: seq<Step>)
    requires IsRun(s, steps)
    ensures End(s, steps).saved == Saves(s.saved, steps)
    decreases |steps|
  {
    if steps == [] {
    } else {
      SavedIsSaves(Apply(s, steps[0]), steps[1..]);
    }
  }

  lemma {:induction false} SavedGrows(s: Sys, steps: seq<Step>)
    requires Inv(s) && IsRun(s, steps)
    ensures SubTables(s.saved, End(s, steps).saved)
    decreases |steps|
  {
    if steps == [] {
    } else {
      StepKeepsInv(s, steps[0]);
      var s' := Apply(s, steps[0]);
      if steps[0].Save? {
        AddPollKeeps(s.saved, steps[0].poll);
      }
      SavedGrows(s', steps[1..]);
      assert forall id <- s.saved.runs :: id in s'.saved.runs && s'.saved.runs[id] == s.saved.runs[id];
    }
  }

  // What a prune at `c` would leave is the same before and after any run whose prunes delete no
  // more than `c` does: interrupted, repeated and concurrent prunes are all absorbed by a later one.
  lemma PruningIsAbsorbed(s: Sys, steps: seq<Step>, c: Cuts)
    requires Init(s) && IsRun(s, steps) && StartsWithin(steps, c, s.forward)
    ensures After(c, End(s, steps).db) == After(c, Saves(s.db, steps))
  {
    RunKeepsCovered(s, steps, c);
    SavedIsSaves(s, steps);
  }

  // Safety over whole runs, for any number of prunes: every row that is live for `c` at some
  // moment of a run is still there at the end.
  lemma LiveRowsStay(s: Sys, steps: seq<Step>, more: seq<Step>, c: Cuts)
    requires Init(s) && IsRun(s, steps) && IsRun(End(s, steps), more)
    requires StartsWithin(steps, c, s.forward) && StartsWithin(more, c, s.forward)
    ensures SubTables(After(c, End(s, steps).db), End(End(s, steps), more).db)
  {
    var mid := End(s, steps);
    var end := End(mid, more);
    RunKeepsInv(s, steps);
    RunKeepsCovered(s, steps, c);
    RunKeepsInv(mid, more);
    RunKeepsCovered(mid, more, c);
    SavedGrows(mid, more);
    AfterGrows(c, mid.saved, end.saved);
    AfterIsPart(c, end.db);
    forall id <- After(c, mid.db).runs
      ensures id in end.db.runs && end.db.runs[id] == mid.db.runs[id]
    {
      assert id in After(c, mid.saved).runs && id in After(c, end.saved).runs;
    }
  }

  lemma AfterGrows(c: Cuts, t: Tables, u: Tables)
    requires SubTables(t, u)
    ensures SubTables(After(c, t), After(c, u))
  {
  }
}
