/** What one completed prune leaves, in any interleaving with saves. */
module RetentionExact {
  import opened History
  import opened Batches
  import opened Retention

  ghost predicate Idle(s: Sys) {
    forall w: nat | w < |s.prunes| :: s.prunes[w].todo == []
  }

  // A save of a poll that is not itself expired for the running prune.
  ghost predicate FreshPoll(c: Cuts, p: Poll) {
    RunLive(c, p.run) && forall k <- p.kids :: RawLive(c, k)
  }

  ghost predicate Quiet(steps: seq<Step>, c: Cuts) {
    forall e <- steps :: !e.Start? && (e.Save? ==> FreshPoll(c, e.poll))
  }

  ghost predicate Cleared(t: Tables, cmd: Cmd) {
    match cmd
    case Drop(_, _) => true
    case RawBatches(cutoff) => ExpiredRaws(t, cutoff) == {}
    case RunBatches(cutoff) => ExpiredRuns(t, cutoff) == {}
  }

  // A short list holds every expired run, and short matches every expired raw payload.
  ghost predicate ListedAll(s: Sys, p: Prune) {
    && (p.listed.Some? ==>
          && p.todo != [] && p.todo[0].RunBatches?
          && p.listed.value <= s.db.runs.Keys
          && (|p.listed.value| < s.limit ==> ExpiredRuns(s.db, p.todo[0].cutoff) <= p.listed.value))
    && (p.matched.Some? ==>
          && p.todo != [] && p.todo[0].RawBatches?
          && p.matched.value <= s.db.kids
          && (|p.matched.value| < s.limit ==> ExpiredRaws(s.db, p.todo[0].cutoff) <= p.matched.value))
  }

  ghost predicate IsRest(todo: seq<Cmd>, program: seq<Cmd>) {
    |todo| <= |program| && todo == program[|program| - |todo|..]
  }

  // Prune `w` runs alone and has cleared the commands it is done with.
  ghost predicate Solo(s: Sys, w: nat, program: seq<Cmd>) {
    && w < |s.prunes|
    && (forall v: nat | v < |s.prunes| && v != w :: s.prunes[v].todo == [])
    && var p := s.prunes[w];
    && IsRest(p.todo, program)
    && (forall i | 0 <= i < |program| - |p.todo| :: Cleared(s.db, program[i]))
    && ListedAll(s, p)
  }

  lemma ClearedByLive(t: Tables, p: Poll, c: Cuts, forward: bool, cmd: Cmd)
    requires Cleared(t, cmd) && CmdWithin(c, forward, cmd) && FreshPoll(c, p)
    ensures Cleared(AddPoll(t, p), cmd)
  {
    match cmd
    case Drop(_, _) =>
    case RawBatches(cutoff) =>
      assert forall k <- t.kids :: k !in ExpiredRaws(t, cutoff) ==> !(k.data.Raw? && k.observedAt < cutoff);
    case RunBatches(cutoff) =>
      assert forall id <- t.runs :: id !in ExpiredRuns(t, cutoff) ==> !(t.runs[id].startedAt < cutoff);
  }

  lemma ClearedByPart(t: Tables, u: Tables, cmd: Cmd)
    requires Cleared(t, cmd) && SubTables(u, t)
    ensures Cleared(u, cmd)
  {
    match cmd
    case Drop(_, _) =>
    case RawBatches(cutoff) => assert ExpiredRaws(u, cutoff) <= ExpiredRaws(t, cutoff);
    case RunBatches(cutoff) =>
      assert forall id <- ExpiredRuns(u, cutoff) :: id in u.runs && id in ExpiredRuns(t, cutoff);
  }

  // The head command is over when its loop sees a short batch: by then nothing expired is left.
  lemma PoppedIsCleared(s: Sys, e: Step, w: nat, program: seq<Cmd>)
    requires Inv(s) && Enabled(s, e) && Solo(s, w, program)
    requires !e.Save? && !e.Start? && !e.Stop? && e.who == w
    requires |Apply(s, e).prunes[w].todo| < |s.prunes[w].todo|
    ensures Cleared(Apply(s, e).db, Head(s, w))
  {
    match e
    case DropStep(_) =>
    case MatchStep(_, _) =>
    case RawStep(_) =>
      var rows := s.prunes[w].matched.value;
      assert s.db.kids * rows == rows;
      DeletedRowsLeave(s.db, rows, Head(s, w).cutoff);
    case ListStep(_, ids) => ShortBatchIsAll(ids, ExpiredRuns(s.db, Head(s, w).cutoff), s.limit, RunTime(s.db));
    case DeleteStep(_) =>
      var ids := s.prunes[w].listed.value;
      assert s.db.runs.Keys * ids == ids;
      DeletedRunsLeave(s.db, ids, Head(s, w).cutoff);
  }

  lemma StepKeepsListedAll(s: Sys, e: Step, w: nat, program: seq<Cmd>, c: Cuts)
    requires Inv(s) && Enabled(s, e) && Solo(s, w, program)
    requires forall cmd <- program :: CmdWithin(c, s.forward, cmd)
    requires !e.Start? && !(e.Stop? && e.who == w) && (e.Save? ==> FreshPoll(c, e.poll))
    ensures ListedAll(Apply(s, e), Apply(s, e).prunes[w])
  {
    var p := s.prunes[w];
    if e.Save? {
      SaveKeepsListedAll(s, e.poll, p, c);
    } else if e.MatchStep? || e.ListStep? {
      ChoiceIsListedAll(s, e);
    }
  }

  lemma ChoiceIsListedAll(s: Sys, e: Step)
    requires Inv(s) && Enabled(s, e) && (e.MatchStep? || e.ListStep?) && ListedAll(s, s.prunes[e.who])
    ensures ListedAll(Apply(s, e), Apply(s, e).prunes[e.who])
  {
    var cutoff := Head(s, e.who).cutoff;
    match e
    case MatchStep(_, batch) => MatchedHoldsBatch(s.db, batch, cutoff, s.limit);
    case ListStep(_, ids) =>
      if |ids| < s.limit {
        ShortBatchIsAll(ids, ExpiredRuns(s.db, cutoff), s.limit, RunTime(s.db));
      }
  }

  lemma SaveKeepsListedAll(s: Sys, poll: Poll, p: Prune, c: Cuts)
    requires Enabled(s, Save(poll)) && ListedAll(s, p) && FreshPoll(c, poll)
    requires p.todo != [] ==> CmdWithin(c, s.forward, p.todo[0])
    ensures ListedAll(Apply(s, Save(poll)), p)
  {
    if p.listed.Some? {
      var cutoff := p.todo[0].cutoff;
      assert ExpiredRuns(AddPoll(s.db, poll), cutoff) <= ExpiredRuns(s.db, cutoff);
    }
    if p.matched.Some? {
      var cutoff := p.todo[0].cutoff;
      assert ExpiredRaws(AddPoll(s.db, poll), cutoff) <= ExpiredRaws(s.db, cutoff);
    }
  }

  lemma StepKeepsCleared(s: Sys, e: Step, w: nat, program: seq<Cmd>, c: Cuts, i: nat)
    requires Inv(s) && Enabled(s, e) && Solo(s, w, program)
    requires forall cmd <- program :: CmdWithin(c, s.forward, cmd)
    requires !e.Start? && !(e.Stop? && e.who == w) && (e.Save? ==> FreshPoll(c, e.poll))
    requires i < |program| - |Apply(s, e).prunes[w].todo|
    ensures Cleared(Apply(s, e).db, program[i])
  {
    if i == |program| - |s.prunes[w].todo| {
      PoppedIsCleared(s, e, w, program);
    } else if e.Save? {
      ClearedByLive(s.db, e.poll, c, s.forward, program[i]);
    } else {
      ClearedByPart(s.db, Apply(s, e).db, program[i]);
    }
  }

  lemma RestOfRest(todo: seq<Cmd>, program: seq<Cmd>)
    requires IsRest(todo, program) && todo != []
    ensures IsRest(todo[1..], program)
  {
  }

  lemma StepKeepsOthers(s: Sys, e: Step, w: nat, program: seq<Cmd>)
    requires Enabled(s, e) && Solo(s, w, program) && !e.Start? && !(e.Stop? && e.who == w)
    ensures var s' := Apply(s, e);
      && w < |s'.prunes| && IsRest(s'.prunes[w].todo, program)
      && forall v: nat | v < |s'.prunes| && v != w :: s'.prunes[v].todo == []
  {
    if s.prunes[w].todo != [] {
      RestOfRest(s.prunes[w].todo, program);
    }
  }

  lemma StepKeepsSolo(s: Sys, e: Step, w: nat, program: seq<Cmd>, c: Cuts)
    requires Inv(s) && Enabled(s, e) && Solo(s, w, program)
    requires forall cmd <- program :: CmdWithin(c, s.forward, cmd)
    requires !e.Start? && !(e.Stop? && e.who == w) && (e.Save? ==> FreshPoll(c, e.poll))
    ensures Solo(Apply(s, e), w, program)
  {
    StepKeepsOthers(s, e, w, program);
    StepKeepsListedAll(s, e, w, program, c);
    forall i: nat | i < |program| - |Apply(s, e).prunes[w].todo|
      ensures Cleared(Apply(s, e).db, program[i])
    {
      StepKeepsCleared(s, e, w, program, c, i);
    }
  }

  lemma {:induction false} RunKeepsSolo(s: Sys, steps: seq<Step>, w: nat, program: seq<Cmd>, c: Cuts)
    requires Inv(s) && IsRun(s, steps) && Solo(s, w, program) && Quiet(steps, c)
    requires forall cmd <- program :: CmdWithin(c, s.forward, cmd)
    requires w < |End(s, steps).prunes| && !End(s, steps).prunes[w].stopped && !s.prunes[w].stopped
    ensures Solo(End(s, steps), w, program)
    decreases |steps|
  {
    if steps == [] {
    } else {
      var e := steps[0];
      if e.Stop? && e.who == w {
        StoppedStays(Apply(s, e), steps[1..], w);
      }
      StepKeepsSolo(s, e, w, program, c);
      StepKeepsInv(s, e);
      RunKeepsSolo(Apply(s, e), steps[1..], w, program, c);
    }
  }

  lemma {:induction false} StoppedStays(s: Sys, steps: seq<Step>, w: nat)
    requires IsRun(s, steps) && w < |s.prunes| && s.prunes[w].stopped && s.prunes[w].todo == []
    ensures w < |End(s, steps).prunes| && End(s, steps).prunes[w].stopped
    decreases |steps|
  {
    if steps == [] {
    } else {
      StoppedStays(Apply(s, steps[0]), steps[1..], w);
    }
  }

  // When every command of a program is cleared, nothing expired is left.
  lemma ClearedProgramIsAfter(t: Tables, cfg: Config, now: int)
    requires Linked(t)
    requires forall cmd <- Program(cfg, now) :: Cleared(t, cmd)
    ensures After(CutsAt(cfg, now), t) == t
  {
    var program := Program(cfg, now);
    if cfg.period > 0 {
      assert program[|program| - 1] == RunBatches(now - cfg.period);
      assert program[|program| - 1] in program;
    }
    if cfg.rawPeriod > 0 {
      var i := |RawProgram(cfg, now)| - 1;
      assert program[i] == RawBatches(now - cfg.rawPeriod);
      assert program[i] in program;
    }
    AfterOfLive(CutsAt(cfg, now), t);
  }

  // The prune itself, from the moment it started: it clears its whole program.
  lemma StartedPruneIsExact(s: Sys, during: seq<Step>, w: nat, cfg: Config, now: int)
    requires NeedsClock(cfg) ==> s.forward
    requires Inv(s) && Covered(s, CutsAt(cfg, now)) && Solo(s, w, Program(cfg, now)) && !s.prunes[w].stopped
    requires IsRun(s, during) && Quiet(during, CutsAt(cfg, now))
    requires var end := End(s, during);
      w < |end.prunes| && end.prunes[w].todo == [] && !end.prunes[w].stopped
    ensures End(s, during).db == After(CutsAt(cfg, now), Saves(s.saved, during))
  {
    var c := CutsAt(cfg, now);
    ProgramWithin(cfg, now, c, s.forward);
    RunKeepsInv(s, during);
    RunKeepsCovered(s, during, c);
    SavedIsSaves(s, during);
    RunKeepsSolo(s, during, w, Program(cfg, now), c);
    ClearedProgramIsAfter(End(s, during).db, cfg, now);
  }

  // A prune that starts while no other one is at work, in any history of saves and of earlier
  // prunes (finished or not), and is not stopped itself leaves exactly what "first do every save,
  // then prune" leaves, however it interleaves with saves of unexpired polls.
  lemma PruneIsExact(s: Sys, before: seq<Step>, cfg: Config, now: int, during: seq<Step>)
    requires Init(s) && IsRun(s, before) && StartsWithin(before, CutsAt(cfg, now), s.forward)
    requires Idle(End(s, before)) && (NeedsClock(cfg) ==> s.forward)
    requires var started := Apply(End(s, before), Start(cfg, now));
      && IsRun(started, during) && Quiet(during, CutsAt(cfg, now))
      && var end := End(started, during);
         var w := |started.prunes| - 1;
         |end.prunes| > w && end.prunes[w].todo == [] && !end.prunes[w].stopped
    ensures End(Apply(End(s, before), Start(cfg, now)), during).db ==
            After(CutsAt(cfg, now), Saves(Saves(s.db, before), during))
  {
    HistoryIsCovered(s, before, CutsAt(cfg, now));
    StartIsSolo(End(s, before), cfg, now);
    StartedPruneIsExact(Apply(End(s, before), Start(cfg, now)), during, |End(s, before).prunes|, cfg, now);
  }

  lemma {:induction false} HistoryIsCovered(s: Sys, before: seq<Step>, c: Cuts)
    requires Init(s) && IsRun(s, before) && StartsWithin(before, c, s.forward)
    ensures Inv(End(s, before)) && Covered(End(s, before), c)
    ensures End(s, before).forward == s.forward && End(s, before).saved == Saves(s.db, before)
  {
    RunKeepsInv(s, before);
    RunKeepsCovered(s, before, c);
    SavedIsSaves(s, before);
  }

  lemma StartIsSolo(s: Sys, cfg: Config, now: int)
    requires Idle(s) && Inv(s) && Covered(s, CutsAt(cfg, now)) && (NeedsClock(cfg) ==> s.forward)
    ensures var started := Apply(s, Start(cfg, now));
      && Inv(started) && Covered(started, CutsAt(cfg, now)) && Solo(started, |s.prunes|, Program(cfg, now))
      && |started.prunes| == |s.prunes| + 1 && !started.prunes[|s.prunes|].stopped
      && started.forward == s.forward && started.saved == s.saved
  {
    StepKeepsInv(s, Start(cfg, now));
    StepKeepsCovered(s, Start(cfg, now), CutsAt(cfg, now));
  }
}
